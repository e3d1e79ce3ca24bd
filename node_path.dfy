/**
 * Node's `path.extname` for POSIX paths, as pure functions: trailing
 * separators are ignored, the last segment is the base name, and the
 * extension runs from the base name's last `.` to its end, except when
 * that dot is the first character of the base name or the base name is
 * `..`, in which case there is no extension.
 */
module NodePath {
  import opened JsRuntime

  /** `p` without the `/` characters it ends with. */
  function TrimTrailingSlashes(p: string): (r: string)
    ensures r <= p
    ensures r == [] || r[|r| - 1] != '/'
    ensures forall i :: |r| <= i < |p| ==> p[i] == '/'
  {
    if p != [] && p[|p| - 1] == '/' then TrimTrailingSlashes(p[..|p| - 1]) else p
  }

  /** Position of the last `c` in `s`, or -1 when `s` has none. */
  function LastIndexOf(s: string, c: char): (k: int)
    ensures -1 <= k < |s|
    ensures k >= 0 ==> s[k] == c
    ensures forall i :: k < i < |s| ==> s[i] != c
  {
    if s == [] then -1
    else if s[|s| - 1] == c then |s| - 1
    else LastIndexOf(s[..|s| - 1], c)
  }

  /** The base name: what follows the last `/` once trailing separators are dropped. */
  function LastSegment(p: string): (b: string)
    ensures forall i :: 0 <= i < |b| ==> b[i] != '/'
  {
    var t := TrimTrailingSlashes(p);
    t[LastIndexOf(t, '/') + 1..]
  }

  /** The base name is the whole trimmed path, or the part of it after the `/` that precedes it. */
  lemma LastSegmentIsLastPart(p: string)
    ensures var t, b := TrimTrailingSlashes(p), LastSegment(p);
      |b| <= |t| && t[|t| - |b|..] == b && (|b| == |t| || t[|t| - |b| - 1] == '/')
  {
  }

  /** `path.extname(p)` on POSIX. */
  function Extname(p: string): (e: string)
    ensures e == [] || e[0] == '.'
    ensures |e| <= |LastSegment(p)|
  {
    BaseExtension(LastSegment(p))
  }

  /** The extension of a base name: from its last `.` on, unless that is its first character or it is `..`. */
  function BaseExtension(b: string): (e: string)
    ensures e == [] || e[0] == '.'
    ensures |e| <= |b|
  {
    var d := LastIndexOf(b, '.');
    if d <= 0 || b == ".." then "" else b[d..]
  }

  /**
   * An extension is empty, or a `.` followed by characters that are neither
   * `.` nor `/`, and it ends the base name.
   */
  lemma ExtnameShape(p: string)
    ensures var e := Extname(p);
      e == [] ||
      (e[0] == '.' &&
       (forall i :: 0 < i < |e| ==> e[i] != '.' && e[i] != '/') &&
       |e| <= |LastSegment(p)| && LastSegment(p)[|LastSegment(p)| - |e|..] == e)
  {
  }

  /**
   * There is no extension exactly when the base name has no dot after its first
   * character, or is `..`.
   */
  lemma ExtnameEmptyIff(p: string)
    ensures var b := LastSegment(p);
      Extname(p) == [] <==> (b == ".." || forall i :: 0 < i < |b| ==> b[i] != '.')
  {
    var b := LastSegment(p);
    var d := LastIndexOf(b, '.');
    if d > 0 && b != ".." {
      assert b[d..][0] == '.';
    }
  }

  /** A name `stem.x` without separators has the extension `.x` when `x` holds no dot. */
  lemma ExtnameOfPlainName(stem: string, x: string)
    requires stem != [] && x != []
    requires forall i :: 0 <= i < |stem| ==> stem[i] != '/'
    requires forall i :: 0 <= i < |x| ==> x[i] != '/' && x[i] != '.'
    ensures Extname(stem + "." + x) == "." + x
  {
    var p := stem + "." + x;
    assert p[|p| - 1] == x[|x| - 1];
    var t := TrimTrailingSlashes(p);
    assert |t| == |p|;
    assert t == p;
    assert LastIndexOf(p, '/') == -1;
    assert LastSegment(p) == p;
    assert p[|stem|] == '.';
    assert LastIndexOf(p, '.') == |stem|;
    assert p != "..";
    assert p[|stem|..] == "." + x;
  }

  // ---------------------------------------------------------------------
  // Lower-casing a path does not move its separators or dots
  // ---------------------------------------------------------------------

  lemma {:induction false} TrimCommutesWithLower(p: string)
    ensures TrimTrailingSlashes(ToLowerCase(p)) == ToLowerCase(TrimTrailingSlashes(p))
    decreases |p|
  {
    var l := ToLowerCase(p);
    if p != [] && p[|p| - 1] == '/' {
      assert l[|l| - 1] == '/';
      ToLowerCaseSlice(p, 0, |p| - 1);
      assert l[..|l| - 1] == ToLowerCase(p[..|p| - 1]);
      TrimCommutesWithLower(p[..|p| - 1]);
    } else if p != [] {
      assert l[|l| - 1] != '/';
    }
  }

  lemma {:induction false} LastIndexOfLower(s: string, c: char)
    requires c == '.' || c == '/'
    ensures LastIndexOf(ToLowerCase(s), c) == LastIndexOf(s, c)
    decreases |s|
  {
    var l := ToLowerCase(s);
    if s != [] {
      assert l[|l| - 1] == c <==> s[|s| - 1] == c;
      ToLowerCaseSlice(s, 0, |s| - 1);
      assert l[..|l| - 1] == ToLowerCase(s[..|s| - 1]);
      LastIndexOfLower(s[..|s| - 1], c);
    }
  }

  lemma LastSegmentCommutesWithLower(p: string)
    ensures LastSegment(ToLowerCase(p)) == ToLowerCase(LastSegment(p))
  {
    var t := TrimTrailingSlashes(p);
    TrimCommutesWithLower(p);
    LastIndexOfLower(t, '/');
    ToLowerCaseSlice(t, LastIndexOf(t, '/') + 1, |t|);
  }

  lemma DotDotLower(b: string)
    ensures ToLowerCase(b) == ".." <==> b == ".."
  {
    var lb := ToLowerCase(b);
    if lb == ".." {
      assert |b| == 2 && lb[0] == LowerChar(b[0]) && lb[1] == LowerChar(b[1]);
      assert b == [b[0], b[1]];
    }
    if b == ".." {
      assert lb == [LowerChar('.'), LowerChar('.')];
    }
  }

  /** The extension of a lower-cased base name is the lower-cased extension. */
  lemma BaseExtensionCommutesWithLower(b: string)
    ensures BaseExtension(ToLowerCase(b)) == ToLowerCase(BaseExtension(b))
  {
    var lb := ToLowerCase(b);
    LastIndexOfLower(b, '.');
    var d := LastIndexOf(b, '.');
    DotDotLower(b);
    if d > 0 && b != ".." {
      ToLowerCaseSlice(b, d, |b|);
    }
  }

  /** `extname` of a lower-cased path is the lower-cased `extname`. */
  lemma ExtnameCommutesWithLower(p: string)
    ensures Extname(ToLowerCase(p)) == ToLowerCase(Extname(p))
  {
    LastSegmentCommutesWithLower(p);
    BaseExtensionCommutesWithLower(LastSegment(p));
  }
}

/** File-name handling of the cropper: `os.path.splitext` (with the Windows
    separators `\` and `/`), the `_bc` output suffix, the extension filter for
    loading, and the collision-avoiding name for imported images. */
module Paths {
  import opened Python
  import opened Text

  predicate IsSep(c: char) {
    c == '\\' || c == '/'
  }

  /** A character that neither separates path components nor marks an extension. */
  predicate Plain(c: char) {
    c != '.' && !IsSep(c)
  }

  predicate AllPlain(s: string) {
    forall i :: 0 <= i < |s| ==> Plain(s[i])
  }

  predicate NoSep(s: string) {
    forall i :: 0 <= i < |s| ==> !IsSep(s[i])
  }

  predicate AllDots(s: string) {
    forall i :: 0 <= i < |s| ==> s[i] == '.'
  }

  /** `max(p.rfind('\\'), p.rfind('/'))`. */
  function LastSep(s: string): (r: int)
    ensures -1 <= r < |s|
    ensures r >= 0 ==> IsSep(s[r])
  {
    if s == [] then -1 else if IsSep(s[|s| - 1]) then |s| - 1 else LastSep(s[..|s| - 1])
  }

  /** No separator follows the one `LastSep` finds. */
  lemma {:induction false} LastSepIsLast(s: string)
    ensures forall j :: LastSep(s) < j < |s| ==> !IsSep(s[j])
    decreases |s|
  {
    if s != [] && !IsSep(s[|s| - 1]) {
      LastSepIsLast(s[..|s| - 1]);
    }
  }

  /** `p.rfind('.')`. */
  function LastDot(s: string): (r: int)
    ensures -1 <= r < |s|
    ensures r >= 0 ==> s[r] == '.'
  {
    if s == [] then -1 else if s[|s| - 1] == '.' then |s| - 1 else LastDot(s[..|s| - 1])
  }

  /** No dot follows the one `LastDot` finds. */
  lemma {:induction false} LastDotIsLast(s: string)
    ensures forall j :: LastDot(s) < j < |s| ==> s[j] != '.'
    decreases |s|
  {
    if s != [] && s[|s| - 1] != '.' {
      LastDotIsLast(s[..|s| - 1]);
    }
  }

  /** Whether `splitext` finds an extension: a dot after the last separator
      that is preceded, within the last component, by something other than dots. */
  predicate HasExt(p: string) {
    var sep, dot := LastSep(p), LastDot(p);
    dot > sep && !AllDots(p[sep + 1..dot])
  }

  /** `os.path.splitext(p)`: the root and the extension, which is empty or a
      dot followed by characters that are neither dots nor separators. */
  function SplitExt(p: string): (string, string) {
    if HasExt(p) then (p[..LastDot(p)], p[LastDot(p)..]) else (p, "")
  }

  /** The root and the extension make up the path; the extension is empty
      exactly when there is none, and otherwise a dot followed by characters
      that are neither dots nor separators. */
  lemma SplitExtParts(p: string)
    ensures var (base, ext) := SplitExt(p);
            base + ext == p &&
            (ext == [] <==> !HasExt(p)) &&
            (ext == [] || (ext[0] == '.' && AllPlain(ext[1..])))
  {
    if HasExt(p) {
      var dot := LastDot(p);
      var ext := p[dot..];
      assert p[..dot] + ext == p;
      LastSepIsLast(p);
      LastDotIsLast(p);
      forall i | 0 <= i < |ext[1..]| ensures Plain(ext[1..][i]) {
        assert ext[1..][i] == p[dot + 1 + i];
      }
    } else {
      assert p + "" == p;
    }
  }

  // ---------------------------------------------------------------- the _bc suffix

  /** `base.endswith("_bc")` for the root of `p`: the test that marks a file
      written by a trim or a colour reduction. */
  predicate HasBcStem(p: string) {
    EndsWith(SplitExt(p).0, "_bc")
  }

  /** `add_bc_suffix(path)`: the root without one trailing `_bc`, then `_bc`,
      then the extension. */
  function AddBcSuffix(p: string): string {
    var (base, ext) := SplitExt(p);
    var stem := if EndsWith(base, "_bc") then base[..|base| - 3] else base;
    stem + "_bc" + ext
  }

  lemma {:induction false} LastSepAppend(s: string, t: string)
    requires NoSep(t)
    ensures LastSep(s + t) == LastSep(s)
    decreases |t|
  {
    if t != [] {
      assert (s + t)[..|s + t| - 1] == s + t[..|t| - 1];
      LastSepAppend(s, t[..|t| - 1]);
    } else {
      assert s + t == s;
    }
  }

  lemma {:induction false} LastDotAppend(s: string, t: string)
    requires AllPlain(t)
    ensures LastDot(s + t) == LastDot(s)
    decreases |t|
  {
    if t != [] {
      assert (s + t)[..|s + t| - 1] == s + t[..|t| - 1];
      LastDotAppend(s, t[..|t| - 1]);
    } else {
      assert s + t == s;
    }
  }

  /** Appending plain characters does not change whether there is an extension. */
  lemma HasExtAppendPlain(s: string, t: string)
    requires AllPlain(t)
    ensures HasExt(s + t) == HasExt(s)
  {
    LastSepAppend(s, t);
    LastDotAppend(s, t);
    var sep, dot := LastSep(s), LastDot(s);
    HasExtAt(s + t, sep, dot);
    HasExtAt(s, sep, dot);
    if dot > sep {
      assert (s + t)[sep + 1..dot] == s[sep + 1..dot];
    }
  }

  /** `HasExt` in terms of the positions of the last separator and the last dot. */
  lemma HasExtAt(p: string, sep: int, dot: int)
    requires sep == LastSep(p) && dot == LastDot(p)
    ensures HasExt(p) == (dot > sep && !AllDots(p[sep + 1..dot]))
  {
  }

  /** A stem, `_bc` and a real extension split back into the suffixed stem and the extension. */
  lemma SplitWithExt(stem: string, ext: string)
    requires ext != [] && ext[0] == '.' && AllPlain(ext[1..])
    ensures SplitExt(stem + "_bc" + ext) == (stem + "_bc", ext)
  {
    var bc := "_bc";
    var q := stem + bc + ext;
    var u := stem + bc + [ext[0]];
    assert q == u + ext[1..];
    LastDotAppend(u, ext[1..]);
    var rest := bc + ext;
    assert q == stem + rest;
    assert NoSep(rest) by {
      forall i | 0 <= i < |rest| ensures !IsSep(rest[i]) {
        if i >= 4 { assert rest[i] == ext[1..][i - 4]; }
      }
    }
    LastSepAppend(stem, rest);
    var sep, dot := LastSep(q), LastDot(q);
    assert dot == |stem| + 3 && sep < |stem|;
    assert q[sep + 1..dot][dot - 1 - (sep + 1)] == 'c';
    assert q[..dot] == stem + bc;
    assert q[dot..] == ext;
  }

  /** A stem without an extension stays without one after `_bc` is appended. */
  lemma SplitWithoutExt(stem: string)
    requires !HasExt(stem)
    ensures SplitExt(stem + "_bc") == (stem + "_bc", "")
  {
    var bc := "_bc";
    assert AllPlain(bc);
    HasExtAppendPlain(stem, bc);
  }

  /** After the suffix is added, `splitext` sees the suffixed stem and the
      original extension. */
  lemma SplitSuffixed(p: string)
    ensures var (base, ext) := SplitExt(p);
            var stem := if EndsWith(base, "_bc") then base[..|base| - 3] else base;
            SplitExt(stem + "_bc" + ext) == (stem + "_bc", ext)
  {
    var (base, ext) := SplitExt(p);
    var stem := if EndsWith(base, "_bc") then base[..|base| - 3] else base;
    SplitExtParts(p);
    if ext == [] {
      StemWithoutExt(p, stem);
      SplitWithoutExt(stem);
      assert stem + "_bc" + ext == stem + "_bc";
    } else {
      SplitWithExt(stem, ext);
    }
  }

  /** Dropping a trailing `_bc` from a path without an extension leaves none. */
  lemma StemWithoutExt(p: string, stem: string)
    requires !HasExt(p)
    requires stem == if EndsWith(p, "_bc") then p[..|p| - 3] else p
    ensures !HasExt(stem)
  {
    if EndsWith(p, "_bc") {
      var bc := "_bc";
      assert AllPlain(bc);
      assert p == stem + bc;
      HasExtAppendPlain(stem, bc);
    }
  }

  /** `add_bc_suffix` keeps the extension and leaves a root ending in `_bc`. */
  lemma AddBcSuffixShape(p: string)
    ensures SplitExt(AddBcSuffix(p)).1 == SplitExt(p).1
    ensures HasBcStem(AddBcSuffix(p))
  {
    SplitSuffixed(p);
  }

  /** Adding the suffix twice is the same as adding it once. */
  lemma AddBcSuffixIdempotent(p: string)
    ensures AddBcSuffix(AddBcSuffix(p)) == AddBcSuffix(p)
  {
    SplitSuffixed(p);
    var (base, ext) := SplitExt(p);
    var stem := if EndsWith(base, "_bc") then base[..|base| - 3] else base;
    var b2 := stem + "_bc";
    assert EndsWith(b2, "_bc");
    assert b2[..|b2| - 3] == stem;
  }

  // ---------------------------------------------------------------- loading filter

  const IMAGE_EXTENSIONS: set<string> := {".jpg", ".jpeg", ".png", ".bmp", ".tiff", ".tif"}

  /** `os.path.splitext(p)[1].lower() in (...)`: a file the loader accepts. */
  predicate IsImagePath(p: string) {
    Lower(SplitExt(p).1) in IMAGE_EXTENSIONS
  }

  /** `os.path.splitext(p)[1].lower() == '.png'`: a file the colour reduction accepts. */
  predicate IsPngPath(p: string) {
    Lower(SplitExt(p).1) == ".png"
  }

  // ---------------------------------------------------------------- import names

  /** `ext.lstrip('.')`. */
  function StripDots(s: string): (r: string)
    ensures r == [] || r[0] != '.'
  {
    if |s| > 0 && s[0] == '.' then StripDots(s[1..]) else s
  }

  /** The part of an import name that precedes the counter:
      `base_dir / f"{prefix}_{timestamp}`, joined with the Windows separator. */
  function ImportStem(dir: string, prefix: string, stamp: string): string {
    dir + "\\" + prefix + "_" + stamp
  }

  /** The counter part: nothing for the first try, `_<counter>` after it. */
  function CounterPart(k: nat): string {
    if k == 0 then "" else "_" + IntToString(k)
  }

  /** The `k`-th name `build_unique_path` tries. */
  function Candidate(dir: string, prefix: string, ext: string, stamp: string, k: nat): string {
    ImportStem(dir, prefix, stamp) + CounterPart(k) + ("." + StripDots(ext))
  }

  lemma CandidateInjective(dir: string, prefix: string, ext: string, stamp: string, j: nat, k: nat)
    requires Candidate(dir, prefix, ext, stamp, j) == Candidate(dir, prefix, ext, stamp, k)
    ensures j == k
  {
    var a, e := ImportStem(dir, prefix, stamp), "." + StripDots(ext);
    var mj, mk := CounterPart(j), CounterPart(k);
    var cj, ck := a + mj + e, a + mk + e;
    assert |mj| == |mk|;
    assert cj[|a|..|a| + |mj|] == mj;
    assert ck[|a|..|a| + |mk|] == mk;
    assert mj == mk;
    if j != 0 && k != 0 {
      assert mj[1..] == IntToString(j) && mk[1..] == IntToString(k);
      IntToStringInjective(j, k);
    }
  }

  /** `k` is the counter the loop of `build_unique_path` stops at: its
      candidate is free and every earlier candidate is taken. */
  predicate FirstFree(dir: string, prefix: string, ext: string, stamp: string, existing: set<string>, k: nat) {
    Candidate(dir, prefix, ext, stamp, k) !in existing &&
    forall j: nat :: j < k ==> Candidate(dir, prefix, ext, stamp, j) in existing
  }

  /** There is at most one such counter. */
  lemma FirstFreeUnique(dir: string, prefix: string, ext: string, stamp: string, existing: set<string>, k1: nat, k2: nat)
    requires FirstFree(dir, prefix, ext, stamp, existing, k1) && FirstFree(dir, prefix, ext, stamp, existing, k2)
    ensures k1 == k2
  {
  }

  /** `build_unique_path(base_dir, prefix, ext)` with the timestamp and the set
      of existing files given: the first name in the sequence
      `<prefix>_<stamp><ext>`, `<prefix>_<stamp>_1<ext>`, `<prefix>_<stamp>_2<ext>`, ...
      that is not taken. */
  method BuildUniquePath(dir: string, prefix: string, ext: string, stamp: string, existing: set<string>)
    returns (path: string)
    ensures path !in existing
    ensures exists k: nat :: path == Candidate(dir, prefix, ext, stamp, k) &&
                            forall j: nat :: j < k ==> Candidate(dir, prefix, ext, stamp, j) in existing
  {
    path := Candidate(dir, prefix, ext, stamp, 0);
    var counter: nat := 1;
    ghost var seen: set<string> := {};
    while path in existing
      invariant counter >= 1
      invariant path == Candidate(dir, prefix, ext, stamp, counter - 1)
      invariant forall j: nat :: j < counter - 1 ==> Candidate(dir, prefix, ext, stamp, j) in seen
      invariant forall x :: x in seen ==> exists j: nat :: j < counter - 1 && x == Candidate(dir, prefix, ext, stamp, j)
      invariant seen <= existing
      invariant |seen| == counter - 1
      decreases |existing| - |seen|
    {
      if path in seen {
        var j: nat :| j < counter - 1 && path == Candidate(dir, prefix, ext, stamp, j);
        CandidateInjective(dir, prefix, ext, stamp, j, counter - 1);
        assert false;
      }
      seen := seen + {path};
      assert existing == seen + (existing - seen);
      path := Candidate(dir, prefix, ext, stamp, counter);
      counter := counter + 1;
    }
  }
}

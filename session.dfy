/** The session of the main window: the loaded documents (path, image and
    colour-reduced flag, kept in three parallel lists), the selected index
    and the undo history of at most `MAX_HISTORY` snapshots. Images are
    opaque values of a type parameter; loading, cropping, colour reduction
    and saving are partial functions passed in by the caller.

    Each method of `MainFrame` and the transition that specifies it:
    - `PushHistory`: `Pushed`
    - `OnRevertAll`: `Reverted`, with `BcFiles` for the files to delete and rewrite
    - `Replace`: `Replaced`, and the loop `Rebuild`: `Rebuilt`
    - `OnTrimAll`: `Trimmed`
    - `OnPngReduce`: `Reduced`, with the loop `CheckAllPng`: `AllPng`
    - `AddFiles`: `FilesAdded`, with the loop `CollectAdded`: `AddAll`
    - `Import`: `Imported`, under the path `Paths.BuildUniquePath` finds
    - `OnClearAll`: `Cleared` */
module Session {
  import opened Python
  import opened Paths
  import opened Geometry
  import opened Controls
  import opened Preview

  const MAX_HISTORY: nat := 10

  /** One state of the document lists, as `PushHistory` records it. */
  datatype Snapshot<Img> = Snapshot(paths: seq<string>, images: seq<Img>, flags: seq<bool>)

  predicate Aligned<Img>(s: Snapshot<Img>) {
    |s.paths| == |s.images| == |s.flags|
  }

  /** The bookkeeping state of the main window. */
  datatype Frame<Img> = Frame(session: Snapshot<Img>, history: seq<Snapshot<Img>>, selected: int)

  /** What every handler keeps: three lists of one length; a history of at
      most `MAX_HISTORY` non-empty snapshots whose last entry is the session,
      or no history and no documents; the selection inside the documents, or
      -1 when there are none. */
  ghost predicate Coherent<Img>(f: Frame<Img>) {
    Aligned(f.session) &&
    |f.history| <= MAX_HISTORY &&
    (forall k :: 0 <= k < |f.history| ==> Aligned(f.history[k]) && |f.history[k].paths| > 0) &&
    (if |f.history| == 0 then |f.session.paths| == 0 else f.history[|f.history| - 1] == f.session) &&
    (if |f.session.paths| == 0 then f.selected == -1 else 0 <= f.selected < |f.session.paths|)
  }

  predicate Distinct(xs: seq<string>) {
    forall i, j :: 0 <= i < j < |xs| ==> xs[i] != xs[j]
  }

  /** `xs.index(x)`: the first position of `x`. */
  function FirstIndex(xs: seq<string>, x: string): (r: nat)
    requires x in xs
    ensures r < |xs| && xs[r] == x
    ensures forall j :: 0 <= j < r ==> xs[j] != x
  {
    if xs[0] == x then 0 else 1 + FirstIndex(xs[1..], x)
  }

  /** In a list without repeats the first position of an entry is its own. */
  lemma FirstIndexDistinct(xs: seq<string>, i: nat)
    requires Distinct(xs) && i < |xs|
    ensures FirstIndex(xs, xs[i]) == i
  {
  }

  // ---------------------------------------------------------------- history

  /** `PushHistory`: the snapshot appended, then the oldest entry dropped
      once there are more than `MAX_HISTORY`. */
  function Pushed<Img>(h: seq<Snapshot<Img>>, s: Snapshot<Img>): (r: seq<Snapshot<Img>>)
    ensures |r| > 0 && r[|r| - 1] == s
    ensures |h| <= MAX_HISTORY ==> |r| <= MAX_HISTORY
  {
    var h1 := h + [s];
    if |h1| > MAX_HISTORY then h1[1..] else h1
  }

  /** Below the bound nothing is evicted; at the bound exactly the oldest
      entry is, and the rest keep their order. */
  lemma PushedEvicts<Img>(h: seq<Snapshot<Img>>, s: Snapshot<Img>)
    ensures |h| < MAX_HISTORY ==> Pushed(h, s) == h + [s]
    ensures |h| == MAX_HISTORY ==> Pushed(h, s) == h[1..] + [s] && |Pushed(h, s)| == MAX_HISTORY
  {
    if |h| == MAX_HISTORY {
      assert (h + [s])[1..] == h[1..] + [s];
    }
  }

  /** `OnRevertAll`: with fewer than two entries nothing happens; otherwise
      the last entry is popped, the session becomes the new last entry and
      an out-of-range selection is reset to 0. */
  function Reverted<Img>(f: Frame<Img>): (r: Frame<Img>)
    ensures |f.history| < 2 ==> r == f
    ensures |f.history| >= 2 ==> r.history == f.history[..|f.history| - 1] &&
                                 r.session == f.history[|f.history| - 2]
  {
    if |f.history| < 2 then f
    else
      var h := f.history[..|f.history| - 1];
      var prev := h[|h| - 1];
      Frame(prev, h, if 0 <= f.selected < |prev.images| then f.selected else 0)
  }

  /** Reverting right after a push that evicted nothing restores the
      history and the session from before the push. */
  lemma RevertUndoesPush<Img>(f: Frame<Img>, s: Snapshot<Img>)
    requires 0 < |f.history| < MAX_HISTORY && f.history[|f.history| - 1] == f.session
    ensures var r := Reverted(Frame(s, Pushed(f.history, s), f.selected));
            r.session == f.session && r.history == f.history
  {
    PushedEvicts(f.history, s);
    assert (f.history + [s])[..|f.history|] == f.history;
  }

  /** The snapshots pushed one after another. */
  function PushedAll<Img>(h: seq<Snapshot<Img>>, ss: seq<Snapshot<Img>>): (r: seq<Snapshot<Img>>)
    ensures |h| <= MAX_HISTORY ==> |r| <= MAX_HISTORY
    ensures ss != [] ==> |r| > 0 && r[|r| - 1] == ss[|ss| - 1]
    decreases |ss|
  {
    if ss == [] then h else Pushed(PushedAll(h, ss[..|ss| - 1]), ss[|ss| - 1])
  }

  /** `n` reverts in a row. */
  function RevertedTimes<Img>(f: Frame<Img>, n: nat): (r: Frame<Img>)
    ensures |r.history| <= |f.history|
  {
    if n == 0 then f else Reverted(RevertedTimes(f, n - 1))
  }

  /** Pushes that stay within the bound evict nothing: they append. */
  lemma {:induction false} PushedAllBelowBound<Img>(h: seq<Snapshot<Img>>, ss: seq<Snapshot<Img>>)
    requires |h| + |ss| <= MAX_HISTORY
    ensures PushedAll(h, ss) == h + ss
    decreases |ss|
  {
    if ss != [] {
      var init, last := ss[..|ss| - 1], ss[|ss| - 1];
      assert ss == init + [last];
      PushedAllBelowBound(h, init);
      PushedEvicts(h + init, last);
      calc {
        PushedAll(h, ss);
        Pushed(PushedAll(h, init), last);
        Pushed(h + init, last);
        h + init + [last];
        h + ss;
      }
    }
  }

  /** Into an empty history, at most `MAX_HISTORY` pushes keep every snapshot. */
  lemma PushedAllFromEmpty<Img>(ss: seq<Snapshot<Img>>)
    requires |ss| <= MAX_HISTORY
    ensures PushedAll([], ss) == ss
  {
    PushedAllBelowBound([], ss);
    assert [] + ss == ss;
  }

  /** From a frame whose session is its last history entry, `n` reverts,
      fewer than the history's entries, pop its last `n` entries and
      restore the entry then last. */
  lemma {:induction false} RevertedTimesPops<Img>(f: Frame<Img>, n: nat)
    requires n < |f.history| && f.history[|f.history| - 1] == f.session
    ensures RevertedTimes(f, n).history == f.history[..|f.history| - n]
    ensures RevertedTimes(f, n).session == f.history[|f.history| - n - 1]
    decreases n
  {
    if n > 0 {
      RevertedTimesPops(f, n - 1);
      var g := RevertedTimes(f, n - 1);
      assert |g.history| == |f.history| - n + 1 >= 2;
      assert g.history[..|g.history| - 1] == f.history[..|f.history| - n];
    }
  }

  /** From a frame whose session is its last history entry, one revert
      fewer than the entries leaves exactly the first entry. */
  lemma RevertsToFirst<Img>(f: Frame<Img>, n: nat)
    requires n + 1 == |f.history| && f.history[n] == f.session
    ensures RevertedTimes(f, n).session == f.history[0]
    ensures RevertedTimes(f, n).history == [f.history[0]]
  {
    RevertedTimesPops(f, n);
    assert f.history[..1] == [f.history[0]];
  }

  /** After `k + 1` pushes into an empty history (at most `MAX_HISTORY`),
      `k` reverts restore the first pushed snapshot, and a further revert
      does nothing. */
  lemma RevertsUndoPushes<Img>(ss: seq<Snapshot<Img>>, selected: int)
    requires 0 < |ss| <= MAX_HISTORY
    ensures RevertedTimes(Frame(ss[|ss| - 1], PushedAll([], ss), selected), |ss| - 1).session == ss[0]
    ensures RevertedTimes(Frame(ss[|ss| - 1], PushedAll([], ss), selected), |ss| - 1).history == [ss[0]]
    ensures var r := RevertedTimes(Frame(ss[|ss| - 1], PushedAll([], ss), selected), |ss| - 1);
            Reverted(r) == r
  {
    PushedAllFromEmpty(ss);
    RevertsToFirst(Frame(ss[|ss| - 1], ss, selected), |ss| - 1);
  }

  /** The selection after a revert lies inside the restored documents. */
  lemma RevertedSelection<Img>(f: Frame<Img>)
    requires |f.history| >= 2 && |f.history[|f.history| - 2].images| > 0
    ensures var r := Reverted(f);
            0 <= r.selected < |r.session.images| &&
            (0 <= f.selected < |r.session.images| ==> r.selected == f.selected)
  {
  }

  /** The paths of `xs` that `OnRevertAll` deletes or rewrites: those whose
      root ends in `_bc` and that are not in `except`, in order. */
  function BcFiles(xs: seq<string>, except: seq<string>): (r: seq<string>)
    ensures |r| <= |xs|
  {
    if xs == [] then []
    else
      var init, p := xs[..|xs| - 1], xs[|xs| - 1];
      BcFiles(init, except) + (if p !in except && HasBcStem(p) then [p] else [])
  }

  /** `BcFiles` holds exactly the paths with a `_bc` root that are not excluded. */
  lemma {:induction false} BcFilesMembers(xs: seq<string>, except: seq<string>)
    ensures forall p :: p in BcFiles(xs, except) <==> p in xs && p !in except && HasBcStem(p)
  {
    if xs != [] {
      var init := xs[..|xs| - 1];
      assert xs == init + [xs[|xs| - 1]];
      BcFilesMembers(init, except);
    }
  }

  /** The loops of `OnRevertAll` that pick the files to delete and to rewrite. */
  method CollectBcFiles(xs: seq<string>, except: seq<string>) returns (r: seq<string>)
    ensures r == BcFiles(xs, except)
  {
    r := [];
    var i := 0;
    while i < |xs|
      invariant 0 <= i <= |xs|
      invariant r == BcFiles(xs[..i], except)
    {
      var p := xs[i];
      assert xs[..i + 1] == xs[..i] + [p];
      BcFilesSnoc(xs[..i], p, except);
      if p !in except && HasBcStem(p) {
        r := r + [p];
      }
      i := i + 1;
    }
    assert xs[..|xs|] == xs;
  }

  lemma BcFilesSnoc(xs: seq<string>, p: string, except: seq<string>)
    ensures BcFiles(xs + [p], except) == BcFiles(xs, except) + (if p !in except && HasBcStem(p) then [p] else [])
  {
    assert (xs + [p])[..|xs|] == xs;
  }

  /** The reverted-to session is coherent again. */
  lemma RevertedCoherent<Img>(f: Frame<Img>)
    requires Coherent(f)
    ensures Coherent(Reverted(f))
  {
    if |f.history| >= 2 {
      var r := Reverted(f);
      assert r.history[|r.history| - 1] == f.history[|f.history| - 2];
    }
  }

  // ---------------------------------------------------------------- batch transforms

  /** The lists `OnTrimAll` or `OnPngReduce` build from the first `n`
      documents: for each one that `f` transforms, the `_bc` path, the new
      image and a flag (the flag of the first document with that path when
      `keepFlags`, else `true`); a document that fails is dropped. */
  function Rebuilt<Img>(s: Snapshot<Img>, f: (string, Img) -> Option<Img>, keepFlags: bool, n: nat): (r: Snapshot<Img>)
    requires Aligned(s) && n <= |s.paths|
    ensures Aligned(r) && |r.paths| <= n
  {
    if n == 0 then Snapshot([], [], [])
    else
      var r0 := Rebuilt(s, f, keepFlags, n - 1);
      var p := s.paths[n - 1];
      match f(p, s.images[n - 1])
      case None => r0
      case Some(img) =>
        var flag := if keepFlags then s.flags[FirstIndex(s.paths, p)] else true;
        Snapshot(r0.paths + [AddBcSuffix(p)], r0.images + [img], r0.flags + [flag])
  }

  /** The loop shared by `OnTrimAll` and `OnPngReduce`: the lists of the
      documents of `s` that `f` transforms. */
  method Rebuild<Img>(s: Snapshot<Img>, f: (string, Img) -> Option<Img>, keepFlags: bool) returns (r: Snapshot<Img>)
    requires Aligned(s)
    ensures r == Rebuilt(s, f, keepFlags, |s.paths|)
  {
    var newPaths, newImages, newFlags := [], [], [];
    var i := 0;
    while i < |s.paths|
      invariant 0 <= i <= |s.paths|
      invariant Snapshot(newPaths, newImages, newFlags) == Rebuilt(s, f, keepFlags, i)
    {
      var path := s.paths[i];
      var out := f(path, s.images[i]);
      if out.Some? {
        newPaths := newPaths + [AddBcSuffix(path)];
        newImages := newImages + [out.value];
        newFlags := newFlags + [if keepFlags then s.flags[FirstIndex(s.paths, path)] else true];
      }
      i := i + 1;
    }
    r := Snapshot(newPaths, newImages, newFlags);
  }

  /** The positions among the first `n` documents that `f` transforms. */
  function Kept<Img>(s: Snapshot<Img>, f: (string, Img) -> Option<Img>, n: nat): (k: seq<nat>)
    requires n <= |s.paths| && n <= |s.images|
    ensures forall j :: 0 <= j < |k| ==> k[j] < n
  {
    if n == 0 then []
    else Kept(s, f, n - 1) + (if f(s.paths[n - 1], s.images[n - 1]).Some? then [n - 1] else [])
  }

  /** Entry `j` of the rebuilt lists `r` is the transform of document `i`. */
  ghost predicate EntryFrom<Img>(s: Snapshot<Img>, f: (string, Img) -> Option<Img>, keepFlags: bool,
                                 r: Snapshot<Img>, j: nat, i: nat)
    requires Aligned(s) && Aligned(r) && j < |r.paths| && i < |s.paths|
  {
    var out := f(s.paths[i], s.images[i]);
    out.Some? && r.paths[j] == AddBcSuffix(s.paths[i]) && r.images[j] == out.value &&
    r.flags[j] == (if keepFlags then s.flags[FirstIndex(s.paths, s.paths[i])] else true)
  }

  /** `k` lists, in increasing order, exactly the positions among the first
      `n` documents that `f` transforms. */
  ghost predicate KeptPositions<Img>(s: Snapshot<Img>, f: (string, Img) -> Option<Img>, k: seq<nat>, n: nat)
    requires n <= |s.paths| && n <= |s.images|
  {
    (forall j :: 0 <= j < |k| ==> k[j] < n) &&
    (forall j1, j2 :: 0 <= j1 < j2 < |k| ==> k[j1] < k[j2]) &&
    (forall i :: 0 <= i < n ==> (i in k <==> f(s.paths[i], s.images[i]).Some?))
  }

  /** `r` holds exactly the transforms of the positions `k` among the first
      `n` documents, which are the positions `f` succeeds on, in increasing order. */
  ghost predicate Successes<Img>(s: Snapshot<Img>, f: (string, Img) -> Option<Img>, keepFlags: bool,
                                 r: Snapshot<Img>, k: seq<nat>, n: nat)
    requires Aligned(s) && Aligned(r) && n <= |s.paths|
  {
    |r.paths| == |k| && KeptPositions(s, f, k, n) &&
    (forall j :: 0 <= j < |k| ==> k[j] < n && EntryFrom(s, f, keepFlags, r, j, k[j]))
  }

  /** The rebuilt lists hold exactly the successes, in their original order:
      entry `j` comes from the `j`-th position that `f` transforms, every
      transformed position is represented, and the positions increase. */
  lemma RebuiltKeepsSuccesses<Img>(s: Snapshot<Img>, f: (string, Img) -> Option<Img>, keepFlags: bool, n: nat)
    requires Aligned(s) && n <= |s.paths|
    ensures Successes(s, f, keepFlags, Rebuilt(s, f, keepFlags, n), Kept(s, f, n), n)
  {
    KeptIsPositions(s, f, n);
    RebuiltEntries(s, f, keepFlags, n);
  }

  /** `Kept` lists the transformed positions in increasing order. */
  lemma KeptIsPositions<Img>(s: Snapshot<Img>, f: (string, Img) -> Option<Img>, n: nat)
    requires n <= |s.paths| && n <= |s.images|
    ensures KeptPositions(s, f, Kept(s, f, n), n)
  {
    KeptIncreasing(s, f, n);
    KeptMembers(s, f, n);
  }

  /** The kept positions increase. */
  lemma {:induction false} KeptIncreasing<Img>(s: Snapshot<Img>, f: (string, Img) -> Option<Img>, n: nat)
    requires n <= |s.paths| && n <= |s.images|
    ensures forall j1, j2 :: 0 <= j1 < j2 < |Kept(s, f, n)| ==> Kept(s, f, n)[j1] < Kept(s, f, n)[j2]
  {
    if n > 0 && f(s.paths[n - 1], s.images[n - 1]).Some? {
      KeptIncreasing(s, f, n - 1);
      var k0, k := Kept(s, f, n - 1), Kept(s, f, n);
      assert k == k0 + [n - 1];
      forall j1, j2 | 0 <= j1 < j2 < |k|
        ensures k[j1] < k[j2]
      {
        if j2 < |k0| {
          assert k[j1] == k0[j1] && k[j2] == k0[j2];
        } else {
          assert k[j1] == k0[j1] < n - 1 && k[j2] == n - 1;
        }
      }
    } else if n > 0 {
      KeptIncreasing(s, f, n - 1);
      assert Kept(s, f, n) == Kept(s, f, n - 1);
    }
  }

  /** A position is kept exactly when its document is transformed. */
  lemma {:induction false} KeptMembers<Img>(s: Snapshot<Img>, f: (string, Img) -> Option<Img>, n: nat)
    requires n <= |s.paths| && n <= |s.images|
    ensures forall i :: 0 <= i < n ==> (i in Kept(s, f, n) <==> f(s.paths[i], s.images[i]).Some?)
  {
    if n > 0 {
      KeptMembers(s, f, n - 1);
      var k0, k := Kept(s, f, n - 1), Kept(s, f, n);
      assert n - 1 !in k0;
      forall i | 0 <= i < n
        ensures i in k <==> f(s.paths[i], s.images[i]).Some?
      {
        if f(s.paths[n - 1], s.images[n - 1]).Some? {
          assert k == k0 + [n - 1];
        } else {
          assert k == k0;
        }
      }
    }
  }

  /** Entry `j` of the rebuilt lists is the transform of the `j`-th kept position. */
  lemma {:induction false} RebuiltEntries<Img>(s: Snapshot<Img>, f: (string, Img) -> Option<Img>, keepFlags: bool, n: nat)
    requires Aligned(s) && n <= |s.paths|
    ensures var r, k := Rebuilt(s, f, keepFlags, n), Kept(s, f, n);
            |r.paths| == |k| && forall j :: 0 <= j < |k| ==> EntryFrom(s, f, keepFlags, r, j, k[j])
  {
    if n > 0 {
      RebuiltEntries(s, f, keepFlags, n - 1);
      var r0, k0 := Rebuilt(s, f, keepFlags, n - 1), Kept(s, f, n - 1);
      var r, k := Rebuilt(s, f, keepFlags, n), Kept(s, f, n);
      if f(s.paths[n - 1], s.images[n - 1]).Some? {
        SuccessStep(s, f, keepFlags, n, r0, k0, r, k);
      } else {
        assert r == r0 && k == k0;
      }
    }
  }

  /** The step of `RebuiltEntries` for a document that succeeds. */
  lemma SuccessStep<Img>(s: Snapshot<Img>, f: (string, Img) -> Option<Img>, keepFlags: bool, n: nat,
                         r0: Snapshot<Img>, k0: seq<nat>, r: Snapshot<Img>, k: seq<nat>)
    requires Aligned(s) && 0 < n <= |s.paths| && f(s.paths[n - 1], s.images[n - 1]).Some?
    requires r0 == Rebuilt(s, f, keepFlags, n - 1) && k0 == Kept(s, f, n - 1)
    requires r == Rebuilt(s, f, keepFlags, n) && k == Kept(s, f, n)
    requires |r0.paths| == |k0| && forall j :: 0 <= j < |k0| ==> EntryFrom(s, f, keepFlags, r0, j, k0[j])
    ensures |r.paths| == |k| && forall j :: 0 <= j < |k| ==> EntryFrom(s, f, keepFlags, r, j, k[j])
  {
    assert k == k0 + [n - 1];
    EntriesKept(s, f, keepFlags, n, r0, k0, r);
    assert EntryFrom(s, f, keepFlags, r, |k0|, n - 1);
  }

  /** Appending one success keeps the earlier entries. */
  lemma EntriesKept<Img>(s: Snapshot<Img>, f: (string, Img) -> Option<Img>, keepFlags: bool, n: nat,
                         r0: Snapshot<Img>, k0: seq<nat>, r: Snapshot<Img>)
    requires Aligned(s) && 0 < n <= |s.paths| && f(s.paths[n - 1], s.images[n - 1]).Some?
    requires r0 == Rebuilt(s, f, keepFlags, n - 1) && r == Rebuilt(s, f, keepFlags, n)
    requires k0 == Kept(s, f, n - 1)
    requires |r0.paths| == |k0| && forall j :: 0 <= j < |k0| ==> EntryFrom(s, f, keepFlags, r0, j, k0[j])
    ensures |r.paths| == |k0| + 1
    ensures forall j :: 0 <= j < |k0| ==> EntryFrom(s, f, keepFlags, r, j, k0[j])
  {
    forall j | 0 <= j < |k0|
      ensures EntryFrom(s, f, keepFlags, r, j, k0[j])
    {
      assert EntryFrom(s, f, keepFlags, r0, j, k0[j]);
      assert r.paths[j] == r0.paths[j] && r.images[j] == r0.images[j] && r.flags[j] == r0.flags[j];
    }
  }

  /** When every document succeeds each position is kept. */
  lemma {:induction false} KeptAll<Img>(s: Snapshot<Img>, f: (string, Img) -> Option<Img>, n: nat)
    requires n <= |s.paths| && n <= |s.images|
    requires forall i :: 0 <= i < n ==> f(s.paths[i], s.images[i]).Some?
    ensures |Kept(s, f, n)| == n && forall j :: 0 <= j < n ==> Kept(s, f, n)[j] == j
  {
    if n > 0 {
      KeptAll(s, f, n - 1);
    }
  }

  /** When every document succeeds the lists keep their length and order,
      each path gains the `_bc` suffix, and trimming a list without repeated
      paths keeps each document's own flag. */
  lemma RebuiltAllSucceed<Img>(s: Snapshot<Img>, f: (string, Img) -> Option<Img>, keepFlags: bool, n: nat)
    requires Aligned(s) && n <= |s.paths|
    requires forall i :: 0 <= i < n ==> f(s.paths[i], s.images[i]).Some?
    requires keepFlags ==> Distinct(s.paths)
    ensures var r := Rebuilt(s, f, keepFlags, n);
            |r.paths| == n &&
            forall i :: 0 <= i < n ==>
              r.paths[i] == AddBcSuffix(s.paths[i]) &&
              r.images[i] == f(s.paths[i], s.images[i]).value &&
              r.flags[i] == (if keepFlags then s.flags[i] else true)
  {
    var r, k := Rebuilt(s, f, keepFlags, n), Kept(s, f, n);
    RebuiltKeepsSuccesses(s, f, keepFlags, n);
    KeptAll(s, f, n);
    forall i | 0 <= i < n
      ensures r.paths[i] == AddBcSuffix(s.paths[i]) && r.images[i] == f(s.paths[i], s.images[i]).value &&
              r.flags[i] == (if keepFlags then s.flags[i] else true)
    {
      assert k[i] == i;
      assert EntryFrom(s, f, keepFlags, r, i, k[i]);
      if keepFlags {
        FirstIndexDistinct(s.paths, i);
      }
    }
  }

  /** When no document succeeds the rebuilt lists are empty. */
  lemma {:induction false} RebuiltNoneSucceed<Img>(s: Snapshot<Img>, f: (string, Img) -> Option<Img>, keepFlags: bool, n: nat)
    requires Aligned(s) && n <= |s.paths|
    requires forall i :: 0 <= i < n ==> f(s.paths[i], s.images[i]).None?
    ensures Rebuilt(s, f, keepFlags, n).paths == []
  {
    if n > 0 {
      RebuiltNoneSucceed(s, f, keepFlags, n - 1);
    }
  }

  /** The frame after a batch transform produced `r`: unchanged when `r` is
      empty, otherwise `r` becomes the session, is pushed, and an
      out-of-range selection is reset to 0. */
  function Replaced<Img>(fr: Frame<Img>, r: Snapshot<Img>): (g: Frame<Img>)
    ensures |r.paths| == 0 ==> g == fr
    ensures |r.paths| > 0 ==> g.session == r && g.history == Pushed(fr.history, r)
  {
    if |r.paths| == 0 then fr
    else Frame(r, Pushed(fr.history, r), if 0 <= fr.selected < |r.images| then fr.selected else 0)
  }

  /** `OnTrimAll`: nothing without a valid crop box; otherwise each document
      is cropped by `cropTo(box)` (crop to the box, save under the `_bc` path
      and reopen) and the successes replace the session. */
  function Trimmed<Img>(fr: Frame<Img>, box: Validated, cropTo: Validated -> (string, Img) -> Option<Img>): (g: Frame<Img>)
    requires Aligned(fr.session)
    ensures !box.Valid? ==> g == fr
  {
    if !box.Valid? then fr
    else Replaced(fr, Rebuilt(fr.session, cropTo(box), true, |fr.session.paths|))
  }

  /** Trimming can give two documents one path: a document and its `_bc`
      copy both go to the `_bc` path, since adding the suffix twice is adding
      it once. A session free of repeated paths need not stay so. */
  lemma TrimCanRepeatPaths<Img>(fr: Frame<Img>, box: Validated, cropTo: Validated -> (string, Img) -> Option<Img>, p: string)
    requires Coherent(fr) && box.Valid? && fr.session.paths == [p, AddBcSuffix(p)]
    requires cropTo(box)(p, fr.session.images[0]).Some? && cropTo(box)(AddBcSuffix(p), fr.session.images[1]).Some?
    ensures var g := Trimmed(fr, box, cropTo);
            Coherent(g) && g.session.paths == [AddBcSuffix(p), AddBcSuffix(p)] && !Distinct(g.session.paths)
    ensures p != AddBcSuffix(p) ==> Distinct(fr.session.paths)
  {
    var r := Rebuilt(fr.session, cropTo(box), true, 2);
    RebuiltPair(fr.session, cropTo(box), p, AddBcSuffix(p));
    AddBcSuffixIdempotent(p);
    ReplacedCoherent(fr, r);
    assert r.paths[0] == r.paths[1];
  }

  /** Two documents that both transform give their two `_bc` paths in order. */
  lemma RebuiltPair<Img>(s: Snapshot<Img>, f: (string, Img) -> Option<Img>, p: string, q: string)
    requires Aligned(s) && s.paths == [p, q]
    requires f(p, s.images[0]).Some? && f(q, s.images[1]).Some?
    ensures Rebuilt(s, f, true, 2).paths == [AddBcSuffix(p), AddBcSuffix(q)]
  {
    var r1 := Rebuilt(s, f, true, 1);
    assert r1.paths == [AddBcSuffix(p)];
  }

  predicate AllPng(paths: seq<string>) {
    forall i :: 0 <= i < |paths| ==> IsPngPath(paths[i])
  }

  /** `OnPngReduce`: nothing without documents or with any non-PNG path;
      otherwise each document is reduced by `reduce` and the successes,
      flagged as reduced, replace the session. */
  function Reduced<Img>(fr: Frame<Img>, reduce: (string, Img) -> Option<Img>): (g: Frame<Img>)
    requires Aligned(fr.session)
    ensures |fr.session.paths| == 0 || !AllPng(fr.session.paths) ==> g == fr
  {
    if |fr.session.paths| == 0 || !AllPng(fr.session.paths) then fr
    else Replaced(fr, Rebuilt(fr.session, reduce, false, |fr.session.paths|))
  }

  /** The loop of `OnPngReduce` that stops at the first non-PNG path. */
  method CheckAllPng(paths: seq<string>) returns (b: bool)
    ensures b == AllPng(paths)
  {
    var i := 0;
    while i < |paths|
      invariant 0 <= i <= |paths|
      invariant AllPng(paths[..i])
    {
      if !IsPngPath(paths[i]) {
        return false;
      }
      i := i + 1;
    }
    assert paths[..|paths|] == paths;
    return true;
  }

  /** After a colour reduction every document is flagged as reduced. */
  lemma {:induction false} RebuiltReducedFlags<Img>(s: Snapshot<Img>, f: (string, Img) -> Option<Img>, n: nat)
    requires Aligned(s) && n <= |s.paths|
    ensures forall j :: 0 <= j < |Rebuilt(s, f, false, n).flags| ==> Rebuilt(s, f, false, n).flags[j]
  {
    if n > 0 {
      RebuiltReducedFlags(s, f, n - 1);
    }
  }

  /** When every document fails, neither transform changes anything or
      pushes a snapshot. */
  lemma NoSuccessNoChange<Img>(fr: Frame<Img>, box: Validated, cropTo: Validated -> (string, Img) -> Option<Img>,
                               reduce: (string, Img) -> Option<Img>)
    requires Aligned(fr.session)
    requires forall i :: 0 <= i < |fr.session.paths| ==> cropTo(box)(fr.session.paths[i], fr.session.images[i]).None?
    requires forall i :: 0 <= i < |fr.session.paths| ==> reduce(fr.session.paths[i], fr.session.images[i]).None?
    ensures Trimmed(fr, box, cropTo) == fr && Reduced(fr, reduce) == fr
  {
    RebuiltNoneSucceed(fr.session, cropTo(box), true, |fr.session.paths|);
    RebuiltNoneSucceed(fr.session, reduce, false, |fr.session.paths|);
  }

  /** A successful colour reduction of PNG documents pushes a session in
      which every document is flagged as reduced and has a `_bc` root. */
  lemma ReducedFlagsAll<Img>(fr: Frame<Img>, f: (string, Img) -> Option<Img>)
    requires Aligned(fr.session)
    ensures var g := Reduced(fr, f);
            g != fr ==> g.history[|g.history| - 1] == g.session &&
                        forall j :: 0 <= j < |g.session.flags| ==> g.session.flags[j] && HasBcStem(g.session.paths[j])
  {
    var n := |fr.session.paths|;
    RebuiltReducedFlags(fr.session, f, n);
    RebuiltKeepsSuccesses(fr.session, f, false, n);
    var r, k := Rebuilt(fr.session, f, false, n), Kept(fr.session, f, n);
    forall j | 0 <= j < |r.paths|
      ensures HasBcStem(r.paths[j])
    {
      assert EntryFrom(fr.session, f, false, r, j, k[j]);
      AddBcSuffixShape(fr.session.paths[k[j]]);
    }
  }

  /** A batch transform keeps the frame coherent. */
  lemma ReplacedCoherent<Img>(fr: Frame<Img>, r: Snapshot<Img>)
    requires Coherent(fr) && Aligned(r)
    ensures Coherent(Replaced(fr, r))
  {
    if |r.paths| > 0 {
      var g := Replaced(fr, r);
      forall k | 0 <= k < |g.history|
        ensures Aligned(g.history[k]) && |g.history[k].paths| > 0
      {
        var h1 := fr.history + [r];
        if |h1| > MAX_HISTORY {
          assert g.history[k] == h1[k + 1];
        } else {
          assert g.history[k] == h1[k];
        }
      }
    }
  }

  // ---------------------------------------------------------------- imports

  /** One candidate of `AddFiles`: accepted when it has an image extension,
      is not loaded yet and `open` succeeds; appended unreduced. */
  function AddOne<Img>(s: Snapshot<Img>, p: string, open: string -> Option<Img>): (r: Snapshot<Img>)
  {
    if IsImagePath(p) && p !in s.paths then
      match open(p)
      case Some(img) => Snapshot(s.paths + [p], s.images + [img], s.flags + [false])
      case None => s
    else s
  }

  /** The candidates taken in order. */
  function AddAll<Img>(s: Snapshot<Img>, cs: seq<string>, open: string -> Option<Img>): (r: Snapshot<Img>)
  {
    if cs == [] then s else AddOne(AddAll(s, cs[..|cs| - 1], open), cs[|cs| - 1], open)
  }

  lemma AddAllSnoc<Img>(s: Snapshot<Img>, cs: seq<string>, c: string, open: string -> Option<Img>)
    ensures AddAll(s, cs + [c], open) == AddOne(AddAll(s, cs, open), c, open)
  {
    assert (cs + [c])[..|cs|] == cs;
  }

  /** The loop of `AddFiles`: each candidate that is an image path, not yet
      present and that opens is appended, unreduced. */
  method CollectAdded<Img>(s: Snapshot<Img>, cs: seq<string>, open: string -> Option<Img>) returns (r: Snapshot<Img>)
    ensures r == AddAll(s, cs, open)
  {
    r := s;
    var i := 0;
    while i < |cs|
      invariant 0 <= i <= |cs|
      invariant r == AddAll(s, cs[..i], open)
    {
      assert cs[..i + 1] == cs[..i] + [cs[i]];
      AddAllSnoc(s, cs[..i], cs[i], open);
      r := AddCandidate(r, cs[i], open);
      i := i + 1;
    }
    assert cs[..|cs|] == cs;
  }

  /** One pass of the `AddFiles` loop. */
  method AddCandidate<Img>(s: Snapshot<Img>, p: string, open: string -> Option<Img>) returns (r: Snapshot<Img>)
    ensures r == AddOne(s, p, open)
  {
    r := s;
    if IsImagePath(p) && p !in s.paths {
      var img := open(p);
      if img.Some? {
        r := Snapshot(s.paths + [p], s.images + [img.value], s.flags + [false]);
      }
    }
  }

  /** Adding keeps the old documents as a prefix and the lists aligned;
      every new path is an image path taken from the candidates that no
      earlier entry holds, new documents are unreduced, and paths free of
      repeats stay free of them. */
  lemma {:induction false} AddAllExtends<Img>(s: Snapshot<Img>, cs: seq<string>, open: string -> Option<Img>)
    requires Aligned(s)
    ensures var r := AddAll(s, cs, open);
            Aligned(r) && |s.paths| <= |r.paths| &&
            r.paths[..|s.paths|] == s.paths && r.images[..|s.images|] == s.images && r.flags[..|s.flags|] == s.flags &&
            (forall j :: |s.paths| <= j < |r.paths| ==> IsImagePath(r.paths[j]) && r.paths[j] in cs && !r.flags[j]) &&
            (forall i, j :: 0 <= i < j < |r.paths| && |s.paths| <= j ==> r.paths[i] != r.paths[j])
    ensures Distinct(s.paths) ==> Distinct(AddAll(s, cs, open).paths)
  {
    if cs != [] {
      var init := cs[..|cs| - 1];
      AddAllExtends(s, init, open);
      var r0 := AddAll(s, init, open);
      var r := AddAll(s, cs, open);
      assert forall q :: q in init ==> q in cs;
      if r != r0 {
        var c := cs[|cs| - 1];
        assert r.paths == r0.paths + [c];
        assert r.images == r0.images + [open(c).value];
        assert r.flags == r0.flags + [false];
        assert c !in r0.paths;
        assert forall i :: 0 <= i < |r0.paths| ==> r.paths[i] == r0.paths[i];
      }
    }
  }

  /** `AddFiles`: the candidates are added; when there are documents
      afterwards the history is reset to the one current snapshot and the
      first document is selected. */
  function FilesAdded<Img>(fr: Frame<Img>, cs: seq<string>, open: string -> Option<Img>): (g: Frame<Img>)
    ensures g.session == AddAll(fr.session, cs, open)
    ensures |g.session.images| > 0 ==> g.history == [g.session] && g.selected == 0
    ensures |g.session.images| == 0 ==> g.history == fr.history && g.selected == fr.selected
  {
    var s := AddAll(fr.session, cs, open);
    if |s.images| > 0 then Frame(s, Pushed([], s), 0) else fr.(session := s)
  }

  lemma FilesAddedCoherent<Img>(fr: Frame<Img>, cs: seq<string>, open: string -> Option<Img>)
    requires Coherent(fr)
    ensures Coherent(FilesAdded(fr, cs, open))
    ensures Distinct(fr.session.paths) ==> Distinct(FilesAdded(fr, cs, open).session.paths)
  {
    AddAllExtends(fr.session, cs, open);
  }

  /** A pasted or captured image saved under `path`: appended unreduced,
      the history reset to the one current snapshot, the new document
      selected. */
  function Imported<Img>(fr: Frame<Img>, path: string, img: Img): (g: Frame<Img>)
    ensures g.session == Snapshot(fr.session.paths + [path], fr.session.images + [img], fr.session.flags + [false])
    ensures g.history == [g.session] && g.selected == |g.session.images| - 1
  {
    var s := Snapshot(fr.session.paths + [path], fr.session.images + [img], fr.session.flags + [false]);
    Frame(s, Pushed([], s), |s.images| - 1)
  }

  lemma ImportedCoherent<Img>(fr: Frame<Img>, path: string, img: Img)
    requires Coherent(fr)
    ensures Coherent(Imported(fr, path, img))
  {
  }

  /** `OnClearAll`: no documents, no history, no selection. */
  function Cleared<Img>(fr: Frame<Img>): (g: Frame<Img>)
    ensures Coherent(g) && g.session.paths == [] && g.history == []
  {
    Frame(Snapshot([], [], []), [], -1)
  }

  // ---------------------------------------------------------------- the main window

  class MainFrame<Img> {
    const preview: PreviewPanel
    const ctrl: ControlPanel
    var paths: seq<string>
    var images: seq<Img>
    var flags: seq<bool>
    var history: seq<Snapshot<Img>>
    var selected: int

    function Current(): Snapshot<Img>
      reads this
    {
      Snapshot(paths, images, flags)
    }

    function State(): Frame<Img>
      reads this
    {
      Frame(Current(), history, selected)
    }

    ghost predicate Valid()
      reads this
    {
      Coherent(State())
    }

    constructor (p: PreviewPanel, c: ControlPanel)
      ensures preview == p && ctrl == c
      ensures State() == Frame(Snapshot([], [], []), [], -1) && Valid()
    {
      preview, ctrl := p, c;
      paths, images, flags, history, selected := [], [], [], [], -1;
    }

    /** `PushHistory`: the current lists appended to the history, the
        oldest entry dropped beyond `MAX_HISTORY`. */
    method PushHistory()
      modifies this
      ensures history == Pushed(old(history), old(Current()))
      ensures Current() == old(Current()) && selected == old(selected)
    {
      history := history + [Current()];
      if |history| > MAX_HISTORY {
        history := history[1..];
      }
    }

    /** `OnRevertAll`, returning the paths it deletes (made by the undone
        step) and the paths it rewrites from the restored images. */
    method OnRevertAll() returns (deleted: seq<string>, rewritten: seq<string>)
      requires Valid()
      modifies this
      ensures State() == Reverted(old(State())) && Valid()
      ensures |old(history)| < 2 ==> deleted == [] && rewritten == []
      ensures |old(history)| >= 2 ==> deleted == BcFiles(old(paths), paths) && rewritten == BcFiles(paths, [])
    {
      deleted, rewritten := [], [];
      if |history| < 2 {
        return;
      }
      ghost var f0 := State();
      var current := paths;
      history := history[..|history| - 1];
      var previous := history[|history| - 1];
      deleted := CollectBcFiles(current, previous.paths);
      rewritten := CollectBcFiles(previous.paths, []);
      paths, images, flags := previous.paths, previous.images, previous.flags;
      if !(0 <= selected < |images|) {
        selected := 0;
      }
      RevertedCoherent(f0);
    }

    /** Replaces the session by non-empty rebuilt lists and pushes them. */
    method Replace(r: Snapshot<Img>)
      requires Valid() && Aligned(r)
      modifies this
      ensures State() == Replaced(old(State()), r) && Valid()
    {
      ghost var f0 := State();
      if |r.paths| > 0 {
        paths, images, flags := r.paths, r.images, r.flags;
        PushHistory();
        if !(0 <= selected < |images|) {
          selected := 0;
        }
      }
      ReplacedCoherent(f0, r);
    }

    /** `OnTrimAll`: the box is the one the coordinate fields of the control
        panel validate to. */
    method OnTrimAll(cropTo: Validated -> (string, Img) -> Option<Img>)
      requires Valid()
      modifies this
      ensures State() == Trimmed(old(State()), ValidatedBox(ctrl.xsText, ctrl.ysText, ctrl.xeText, ctrl.yeText), cropTo)
      ensures Valid()
    {
      var box := ValidatedBox(ctrl.xsText, ctrl.ysText, ctrl.xeText, ctrl.yeText);
      if !box.Valid? {
        return;
      }
      var r := Rebuild(Current(), cropTo(box), true);
      Replace(r);
    }

    /** `OnPngReduce`. */
    method OnPngReduce(reduce: (string, Img) -> Option<Img>)
      requires Valid()
      modifies this
      ensures State() == Reduced(old(State()), reduce) && Valid()
    {
      if |paths| == 0 {
        return;
      }
      var png := CheckAllPng(paths);
      if !png {
        return;
      }
      var r := Rebuild(Current(), reduce, false);
      Replace(r);
    }

    /** `AddFiles` for the candidate paths, with `open` the result of
        opening each one. */
    method AddFiles(cs: seq<string>, open: string -> Option<Img>)
      requires Valid()
      modifies this
      ensures State() == FilesAdded(old(State()), cs, open) && Valid()
      ensures old(Distinct(paths)) ==> Distinct(paths)
    {
      ghost var f0 := State();
      var added := CollectAdded(Current(), cs, open);
      paths, images, flags := added.paths, added.images, added.flags;
      assert Current() == added;
      if |images| > 0 {
        history := [];
        PushHistory();
        selected := 0;
        assert State() == Frame(added, Pushed([], added), 0);
      } else {
        assert State() == f0.(session := added);
      }
      FilesAddedCoherent(f0, cs, open);
    }

    /** `OnPasteFromClipboard` and `OnSnapshot`: `captured` is the image
        taken from the clipboard or the screen, `existing` the files in the
        import folder, `stamp` the formatted time and `saved` whether saving
        to a path succeeds. */
    method Import(captured: Option<Img>, dir: string, prefix: string, stamp: string, existing: set<string>,
                  saved: string -> bool)
      returns (path: Option<string>)
      requires Valid()
      modifies this
      ensures captured.None? ==> path.None? && State() == old(State())
      ensures path.Some? ==> path.value !in existing && captured.Some? &&
                             State() == Imported(old(State()), path.value, captured.value)
      ensures captured.Some? && path.None? ==> State() == old(State())
      ensures captured.Some? ==> exists k: nat :: FirstFree(dir, prefix, ".png", stamp, existing, k)
      ensures captured.Some? ==>
                forall k: nat :: FirstFree(dir, prefix, ".png", stamp, existing, k) ==>
                  (path.Some? <==> saved(Candidate(dir, prefix, ".png", stamp, k))) &&
                  (path.Some? ==> path.value == Candidate(dir, prefix, ".png", stamp, k))
      ensures Valid()
    {
      if captured.None? {
        return None;
      }
      var p := BuildUniquePath(dir, prefix, ".png", stamp, existing);
      ghost var k0: nat :| p == Candidate(dir, prefix, ".png", stamp, k0) &&
                          forall j: nat :: j < k0 ==> Candidate(dir, prefix, ".png", stamp, j) in existing;
      assert FirstFree(dir, prefix, ".png", stamp, existing, k0);
      forall k: nat | FirstFree(dir, prefix, ".png", stamp, existing, k)
        ensures Candidate(dir, prefix, ".png", stamp, k) == p
      {
        FirstFreeUnique(dir, prefix, ".png", stamp, existing, k0, k);
      }
      if !saved(p) {
        return None;
      }
      paths, images, flags := paths + [p], images + [captured.value], flags + [false];
      history := [];
      PushHistory();
      selected := |images| - 1;
      path := Some(p);
    }

    /** `OnClearAll`: the lists, the history and the selection cleared, the
        preview emptied and the coordinate fields blanked. */
    method OnClearAll()
      modifies this, preview, ctrl
      ensures State() == Cleared(old(State())) && Valid()
      ensures preview.State() == old(preview.State()).(image := None, crop := None)
      ensures ctrl.xsText == "" && ctrl.ysText == "" && ctrl.xeText == "" && ctrl.yeText == ""
      ensures ctrl.locked == old(ctrl.locked) && ctrl.aspectText == old(ctrl.aspectText)
    {
      paths, images, flags, history, selected := [], [], [], [], -1;
      preview.image, preview.crop := None, None;
      ctrl.xsText, ctrl.ysText, ctrl.xeText, ctrl.yeText := "", "", "", "";
    }
  }
}

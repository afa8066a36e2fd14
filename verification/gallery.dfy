/** The thumbnail gallery the worker's artifacts are shown in: adding an
    item for each extracted frame (`add_gallery_item`) and deleting the
    selected frames (`delete_selected_images`). Thumbnails, icons and sizes
    are not modelled; an item is its caption and the path it stands for. */
module Gallery {

  import opened Paths
  import opened Extractor

  datatype Item = Item(text: string, path: string)

  /** The caption of a file name: names longer than 20 characters are cut to
      their first 17 characters followed by "...". */
  function Label(fileName: string): (r: string)
    ensures |r| <= 20
    ensures |fileName| <= 20 ==> r == fileName
    ensures |fileName| > 20 ==> |r| == 20 && IsPrefix(fileName[..17], r) && r[17..] == "..."
  {
    if |fileName| > 20 then fileName[..17] + "..." else fileName
  }

  /** A label is its own label, and a name is its own label exactly when it
      is at most 20 characters long. */
  lemma LabelFixedPoints(fileName: string)
    ensures Label(Label(fileName)) == Label(fileName)
    ensures Label(fileName) == fileName <==> |fileName| <= 20
  {}

  /** `add_gallery_item`: append an item captioned with the file's base name. */
  function AddItem(g: seq<Item>, imagePath: string): (r: seq<Item>)
    ensures |r| == |g| + 1 && r[..|g|] == g
    ensures r[|g|].path == imagePath
    ensures r[|g|].text == Label(Basename(imagePath))
    ensures '/' !in r[|g|].text
  {
    BasenameSpec(imagePath);
    LabelNoSlash(Basename(imagePath));
    g + [Item(Label(Basename(imagePath)), imagePath)]
  }

  /** Cutting a name never introduces a separator. */
  lemma LabelNoSlash(fileName: string)
    requires '/' !in fileName
    ensures '/' !in Label(fileName)
  {
    if |fileName| > 20 {
      assert forall i :: 0 <= i < 17 ==> Label(fileName)[i] == fileName[i];
    }
  }

  /** The gallery after the worker's trace has been delivered: one item per
      `new_frame_extracted` signal, in order. */
  function Collect(g: seq<Item>, t: seq<Event>): seq<Item>
    decreases |t|
  {
    if |t| == 0 then g
    else Collect(if t[0].Artifact? then AddItem(g, t[0].path) else g, t[1..])
  }

  function ItemPaths(g: seq<Item>): (r: seq<string>)
    ensures |r| == |g|
    ensures forall i :: 0 <= i < |g| ==> r[i] == g[i].path
  {
    seq(|g|, i requires 0 <= i < |g| => g[i].path)
  }

  function ArtifactPaths(t: seq<Event>): (r: seq<string>)
    decreases |t|
  {
    if |t| == 0 then []
    else (if t[0].Artifact? then [t[0].path] else []) + ArtifactPaths(t[1..])
  }

  /** The gallery gains exactly the written frames, in the order written. */
  lemma {:induction false} CollectAppends(g: seq<Item>, t: seq<Event>)
    ensures ItemPaths(Collect(g, t)) == ItemPaths(g) + ArtifactPaths(t)
    ensures |ArtifactPaths(t)| == |Only(t, Written)|
    decreases |t|
  {
    if |t| > 0 {
      var g' := if t[0].Artifact? then AddItem(g, t[0].path) else g;
      CollectAppends(g', t[1..]);
      if t[0].Artifact? {
        assert ItemPaths(g') == ItemPaths(g) + [t[0].path];
      }
    }
  }

  /** The gallery, cleared when extraction starts, ends up with one item per
      frame the batch yields. */
  lemma GalleryAfterRun(job: Job, srcs: seq<Source>, zeroDivText: string)
    ensures |Collect([], Run(job, srcs, zeroDivText))| == TotalYield(srcs)
  {
    var t := Run(job, srcs, zeroDivText);
    CollectAppends([], t);
    RunOutcome(job, srcs, zeroDivText);
  }

  // ---------------------------------------------------------------- delete

  /** The outcome of the delete loop: the gallery positions taken out, the
      files still on disk and the warnings shown. */
  datatype Deletion = Deletion(removed: set<int>, files: set<string>, warnings: seq<string>)

  function DeleteWarning(path: string, reason: string): string {
    "Could not delete " + path + ": " + reason
  }

  predicate ValidSelection(g: seq<Item>, sel: seq<int>) {
    && (forall i :: 0 <= i < |sel| ==> 0 <= sel[i] < |g|)
    && (forall i, j :: 0 <= i < j < |sel| ==> sel[i] != sel[j])
  }

  /** The loop over the selected items, in the order the selection lists
      them. `files` are the paths that exist; `failing` maps the paths whose
      removal raises to the error's text. */
  function Sweep(g: seq<Item>, sel: seq<int>, files: set<string>, failing: map<string, string>): (d: Deletion)
    requires ValidSelection(g, sel)
    ensures d.files <= files
    ensures forall i :: i in d.removed ==> i in sel && g[i].path in files && g[i].path !in failing
                                           && g[i].path !in d.files
    decreases |sel|
  {
    if |sel| == 0 then Deletion({}, files, [])
    else
      var p := g[sel[0]].path;
      if p !in files then Sweep(g, sel[1..], files, failing)
      else if p in failing then
        var d := Sweep(g, sel[1..], files, failing);
        Deletion(d.removed, d.files, [DeleteWarning(p, failing[p])] + d.warnings)
      else
        var d := Sweep(g, sel[1..], files - {p}, failing);
        Deletion({sel[0]} + d.removed, d.files, d.warnings)
  }

  /** The items at positions not in `removed`, in their order. */
  function Keep(g: seq<Item>, removed: set<int>): seq<Item>
    decreases |g|
  {
    if |g| == 0 then []
    else Keep(g[..|g| - 1], removed) + (if |g| - 1 in removed then [] else [g[|g| - 1]])
  }

  /** `delete_selected_images`: the new gallery, the files left on disk and
      the warnings shown. */
  function DeleteSelected(g: seq<Item>, sel: seq<int>, files: set<string>, failing: map<string, string>)
    : (seq<Item>, set<string>, seq<string>)
    requires ValidSelection(g, sel)
  {
    var d := Sweep(g, sel, files, failing);
    (Keep(g, d.removed), d.files, d.warnings)
  }

  /** The positions 0 .. n-1. */
  function Positions(n: nat): (r: set<int>)
    ensures forall i :: i in r <==> 0 <= i < n
    ensures |r| == n
  {
    if n == 0 then {} else Positions(n - 1) + {n - 1}
  }

  /** `Keep` keeps every item at a position not removed, and nothing else. */
  lemma {:induction false} KeepMembers(g: seq<Item>, removed: set<int>)
    ensures forall i :: 0 <= i < |g| && i !in removed ==> g[i] in Keep(g, removed)
    ensures forall x :: x in Keep(g, removed) ==> exists i :: 0 <= i < |g| && i !in removed && g[i] == x
    decreases |g|
  {
    if |g| > 0 {
      var n := |g| - 1;
      var front := g[..n];
      KeepMembers(front, removed);
      forall i | 0 <= i < |g| && i !in removed
        ensures g[i] in Keep(g, removed)
      {
        if i < n {
          assert front[i] == g[i];
        }
      }
      forall x | x in Keep(g, removed)
        ensures exists i :: 0 <= i < |g| && i !in removed && g[i] == x
      {
        if x in Keep(front, removed) {
          var i :| 0 <= i < |front| && i !in removed && front[i] == x;
          assert g[i] == x;
        } else {
          assert g[n] == x;
        }
      }
    }
  }

  /** Where an item at position `i` ends up if it stays: the number of
      positions before it that are not removed. */
  function Rank(removed: set<int>, i: nat): nat {
    if i == 0 then 0 else Rank(removed, i - 1) + (if i - 1 in removed then 0 else 1)
  }

  /** Every item at a position not removed sits in the new gallery at its
      rank, and the new gallery is as long as the rank of the end. */
  lemma {:induction false} KeepPositions(g: seq<Item>, removed: set<int>)
    ensures |Keep(g, removed)| == Rank(removed, |g|)
    ensures forall i :: 0 <= i < |g| && i !in removed ==>
              Rank(removed, i) < |Keep(g, removed)| && Keep(g, removed)[Rank(removed, i)] == g[i]
    decreases |g|
  {
    if |g| > 0 {
      var n := |g| - 1;
      var front := g[..n];
      var kf := Keep(front, removed);
      var k := Keep(g, removed);
      assert k == kf + (if n in removed then [] else [g[n]]);
      KeepPositions(front, removed);
      assert |k| == Rank(removed, |g|);
      forall i | 0 <= i < |g| && i !in removed
        ensures Rank(removed, i) < |k| && k[Rank(removed, i)] == g[i]
      {
        var r := Rank(removed, i);
        if i < n {
          assert r < |kf| && kf[r] == front[i];
          assert k[r] == kf[r];
        } else {
          assert r == |kf|;
        }
      }
    }
  }

  /** Past a position that stays, the rank goes up. */
  lemma {:induction false} RankGrows(removed: set<int>, i: nat, j: nat)
    requires i < j && i !in removed
    ensures Rank(removed, i) < Rank(removed, j)
    decreases j - i
  {
    if i < j - 1 {
      RankGrows(removed, i, j - 1);
    }
  }

  /** Two items that both stay keep their relative order. */
  lemma KeepOrder(g: seq<Item>, removed: set<int>)
    ensures forall i, j :: 0 <= i < j < |g| && i !in removed && j !in removed ==>
              exists p, q :: 0 <= p < q < |Keep(g, removed)|
                             && Keep(g, removed)[p] == g[i] && Keep(g, removed)[q] == g[j]
  {
    KeepPositions(g, removed);
    forall i, j | 0 <= i < j < |g| && i !in removed && j !in removed
      ensures exists p, q :: 0 <= p < q < |Keep(g, removed)|
                             && Keep(g, removed)[p] == g[i] && Keep(g, removed)[q] == g[j]
    {
      RankGrows(removed, i, j);
      var p, q := Rank(removed, i), Rank(removed, j);
      assert Keep(g, removed)[p] == g[i] && Keep(g, removed)[q] == g[j];
    }
  }

  /** Counting the removed positions below `n + 1` from those below `n`. */
  lemma RemovedBelow(removed: set<int>, n: nat)
    ensures |removed * Positions(n + 1)| == |removed * Positions(n)| + (if n in removed then 1 else 0)
  {
    var before := removed * Positions(n);
    var after := removed * Positions(n + 1);
    assert n !in before;
    if n in removed {
      assert after == before + {n};
    } else {
      assert after == before;
    }
  }

  /** The gallery shrinks by the number of removed positions. */
  lemma {:induction false} KeepLength(g: seq<Item>, removed: set<int>)
    ensures |Keep(g, removed)| + |removed * Positions(|g|)| == |g|
    decreases |g|
  {
    if |g| > 0 {
      var n := |g| - 1;
      KeepLength(g[..n], removed);
      RemovedBelow(removed, n);
    }
  }

  /** Removing no position leaves the gallery as it was. */
  lemma {:induction false} KeepAll(g: seq<Item>, removed: set<int>)
    requires forall i :: i in removed ==> !(0 <= i < |g|)
    ensures Keep(g, removed) == g
    decreases |g|
  {
    if |g| > 0 {
      var n := |g| - 1;
      KeepAll(g[..n], removed);
      assert g == g[..n] + [g[n]];
    }
  }

  /** The paths of the items at the given positions. */
  function PathsAt(g: seq<Item>, positions: set<int>): set<string>
    requires forall i :: i in positions ==> 0 <= i < |g|
  {
    set i | i in positions :: g[i].path
  }

  /** The delete loop removes from disk exactly the files of the items it
      takes out of the gallery, and every warning is about a selected file
      that exists but cannot be removed. */
  lemma {:induction false} SweepEffects(g: seq<Item>, sel: seq<int>, files: set<string>, failing: map<string, string>)
    requires ValidSelection(g, sel)
    ensures var d := Sweep(g, sel, files, failing);
            && d.files == files - PathsAt(g, d.removed)
            && (forall w :: w in d.warnings ==>
                  exists k :: 0 <= k < |sel| && g[sel[k]].path in files && g[sel[k]].path in failing
                              && w == DeleteWarning(g[sel[k]].path, failing[g[sel[k]].path]))
            && (forall k :: 0 <= k < |sel| && g[sel[k]].path in files && g[sel[k]].path in failing ==>
                  DeleteWarning(g[sel[k]].path, failing[g[sel[k]].path]) in d.warnings)
    decreases |sel|
  {
    SweepWarnsAll(g, sel, files, failing);
    if |sel| > 0 {
      var p := g[sel[0]].path;
      var tail := sel[1..];
      assert ValidSelection(g, tail);
      var d := Sweep(g, sel, files, failing);
      if p !in files {
        SweepEffects(g, tail, files, failing);
        ShiftWitness(g, sel, files, failing, Sweep(g, tail, files, failing).warnings);
      } else if p in failing {
        SweepEffects(g, tail, files, failing);
        ShiftWitness(g, sel, files, failing, Sweep(g, tail, files, failing).warnings);
        assert d.warnings[0] == DeleteWarning(g[sel[0]].path, failing[g[sel[0]].path]);
      } else {
        var d' := Sweep(g, tail, files - {p}, failing);
        SweepEffects(g, tail, files - {p}, failing);
        assert PathsAt(g, d.removed) == {p} + PathsAt(g, d'.removed);
        ShiftWitness(g, sel, files - {p}, failing, d'.warnings);
      }
    }
  }

  /** Every selected file that exists but cannot be removed is warned
      about: a failing file is never taken off the disk, so it still exists
      when the loop reaches it. */
  lemma {:induction false} SweepWarnsAll(g: seq<Item>, sel: seq<int>, files: set<string>, failing: map<string, string>)
    requires ValidSelection(g, sel)
    ensures forall k :: 0 <= k < |sel| && g[sel[k]].path in files && g[sel[k]].path in failing ==>
              DeleteWarning(g[sel[k]].path, failing[g[sel[k]].path]) in Sweep(g, sel, files, failing).warnings
    decreases |sel|
  {
    if |sel| > 0 {
      var p := g[sel[0]].path;
      var tail := sel[1..];
      assert ValidSelection(g, tail);
      var files' := if p in files && p !in failing then files - {p} else files;
      SweepWarnsAll(g, tail, files', failing);
      var rest := Sweep(g, tail, files', failing).warnings;
      assert forall w :: w in rest ==> w in Sweep(g, sel, files, failing).warnings;
      forall k | 1 <= k < |sel| && g[sel[k]].path in files && g[sel[k]].path in failing
        ensures DeleteWarning(g[sel[k]].path, failing[g[sel[k]].path]) in Sweep(g, sel, files, failing).warnings
      {
        assert tail[k - 1] == sel[k];
      }
    }
  }

  lemma ShiftWitness(g: seq<Item>, sel: seq<int>, files: set<string>, failing: map<string, string>, ws: seq<string>)
    requires |sel| > 0 && ValidSelection(g, sel)
    requires forall w :: w in ws ==>
               exists k :: 0 <= k < |sel[1..]| && g[sel[1..][k]].path in files && g[sel[1..][k]].path in failing
                           && w == DeleteWarning(g[sel[1..][k]].path, failing[g[sel[1..][k]].path])
    ensures forall w :: w in ws ==>
              exists k :: 0 <= k < |sel| && g[sel[k]].path in files && g[sel[k]].path in failing
                          && w == DeleteWarning(g[sel[k]].path, failing[g[sel[k]].path])
  {
    forall w | w in ws
      ensures exists k :: 0 <= k < |sel| && g[sel[k]].path in files && g[sel[k]].path in failing
                          && w == DeleteWarning(g[sel[k]].path, failing[g[sel[k]].path])
    {
      var k :| 0 <= k < |sel[1..]| && g[sel[1..][k]].path in files && g[sel[1..][k]].path in failing
               && w == DeleteWarning(g[sel[1..][k]].path, failing[g[sel[1..][k]].path]);
      assert sel[1..][k] == sel[k + 1];
    }
  }

  /** No two selected items stand for the same file. */
  predicate DistinctPaths(g: seq<Item>, sel: seq<int>)
    requires ValidSelection(g, sel)
  {
    forall i, j :: 0 <= i < j < |sel| ==> g[sel[i]].path != g[sel[j]].path
  }

  /** The selected positions whose file exists and can be removed. */
  function Deletable(g: seq<Item>, sel: seq<int>, files: set<string>, failing: map<string, string>): set<int>
    requires ValidSelection(g, sel)
  {
    set k | 0 <= k < |sel| && g[sel[k]].path in files && g[sel[k]].path !in failing :: sel[k]
  }

  lemma DistinctTail(g: seq<Item>, sel: seq<int>)
    requires |sel| > 0 && ValidSelection(g, sel) && DistinctPaths(g, sel)
    ensures ValidSelection(g, sel[1..]) && DistinctPaths(g, sel[1..])
    ensures forall k :: 0 <= k < |sel[1..]| ==> g[sel[1..][k]].path != g[sel[0]].path
  {
    var tail := sel[1..];
    forall i, j | 0 <= i < j < |tail|
      ensures g[tail[i]].path != g[tail[j]].path
    {
      assert tail[i] == sel[i + 1] && tail[j] == sel[j + 1];
    }
    forall k | 0 <= k < |tail|
      ensures g[tail[k]].path != g[sel[0]].path
    {
      assert tail[k] == sel[k + 1];
    }
  }

  /** A selected position is deletable exactly when its own file exists and
      can be removed. */
  lemma DeletableMember(g: seq<Item>, sel: seq<int>, files: set<string>, failing: map<string, string>, k: int)
    requires ValidSelection(g, sel) && 0 <= k < |sel|
    ensures sel[k] in Deletable(g, sel, files, failing) <==> g[sel[k]].path in files && g[sel[k]].path !in failing
  {
    if sel[k] in Deletable(g, sel, files, failing) {
      var k' :| 0 <= k' < |sel| && g[sel[k']].path in files && g[sel[k']].path !in failing && sel[k'] == sel[k];
      assert k' == k;
    }
  }

  /** The deletable selection is its first item, when deletable, and the
      deletable rest, judged after the first item's file is gone. */
  lemma DeletableStep(g: seq<Item>, sel: seq<int>, files: set<string>, failing: map<string, string>)
    requires |sel| > 0 && ValidSelection(g, sel) && DistinctPaths(g, sel)
    ensures var p := g[sel[0]].path;
            var now := p in files && p !in failing;
            var files' := if now then files - {p} else files;
            ValidSelection(g, sel[1..])
            && Deletable(g, sel, files, failing)
               == Deletable(g, sel[1..], files', failing) + (if now then {sel[0]} else {})
  {
    var p := g[sel[0]].path;
    var now := p in files && p !in failing;
    var files' := if now then files - {p} else files;
    var tail := sel[1..];
    DistinctTail(g, sel);
    var all := Deletable(g, sel, files, failing);
    var rest := Deletable(g, tail, files', failing);
    forall k | 1 <= k < |sel|
      ensures sel[k] in all <==> sel[k] in rest
    {
      assert tail[k - 1] == sel[k];
      DeletableMember(g, sel, files, failing, k);
      DeletableMember(g, tail, files', failing, k - 1);
    }
    DeletableMember(g, sel, files, failing, 0);
    assert sel[0] !in rest;
    forall x | x in all
      ensures x in rest || (x == sel[0] && now)
    {
      var k :| 0 <= k < |sel| && sel[k] == x;
    }
    forall x | x in rest
      ensures x in all
    {
      var k :| 0 <= k < |tail| && tail[k] == x;
      assert sel[k + 1] == x;
    }
  }

  /** When the selected items stand for different files, the loop takes out
      exactly the selected items whose file exists (and can be removed). */
  lemma {:induction false} SweepExact(g: seq<Item>, sel: seq<int>, files: set<string>, failing: map<string, string>)
    requires ValidSelection(g, sel)
    requires DistinctPaths(g, sel)
    ensures Sweep(g, sel, files, failing).removed == Deletable(g, sel, files, failing)
    decreases |sel|
  {
    if |sel| > 0 {
      var p := g[sel[0]].path;
      var files' := if p in files && p !in failing then files - {p} else files;
      DistinctTail(g, sel);
      DeletableStep(g, sel, files, failing);
      SweepExact(g, sel[1..], files', failing);
    }
  }

  /** `delete_selected_images`: unselected items, and selected items whose
      file does not exist, stay in the gallery; with one item per file, the
      items taken out, from disk and gallery alike, are exactly the selected
      ones whose file exists and can be removed. */
  lemma DeleteFilter(g: seq<Item>, sel: seq<int>, files: set<string>, failing: map<string, string>)
    requires ValidSelection(g, sel)
    ensures var (g', files', _) := DeleteSelected(g, sel, files, failing);
            var d := Sweep(g, sel, files, failing);
            && g' == Keep(g, d.removed)
            && (forall i :: 0 <= i < |g| && i !in sel ==> g[i] in g')
            && (forall i :: 0 <= i < |g| && g[i].path !in files ==> g[i] in g')
            && (forall x :: x in g' ==> x in g)
            && files' == files - PathsAt(g, d.removed)
            && (DistinctPaths(g, sel) ==> d.removed == Deletable(g, sel, files, failing))
  {
    var d := Sweep(g, sel, files, failing);
    KeepMembers(g, d.removed);
    SweepEffects(g, sel, files, failing);
    if DistinctPaths(g, sel) {
      SweepExact(g, sel, files, failing);
    }
  }
}

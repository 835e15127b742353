/** The per-root report of Main.scanDirectories: the grand total of a root, the map
    from each immediate subdirectory's name to its subtotal, and that map's entries
    ranked by area, largest first. */
module DirectoryReport {
  import opened Wrappers
  import opened FileTree
  import opened AreaScanner
  import Share

  /** A map entry: a subdirectory's name and its pixel area. */
  type Entry = (string, nat)

  /** What is printed for one root: its path, its total and its ranked entries. */
  datatype Report = Report(path: string, total: nat, entries: seq<Entry>)

  // ---------------------------------------------------------------------------
  // The per-subdirectory map.
  // ---------------------------------------------------------------------------

  /** The map the subdirectory loop builds: every directory in the listing is put
      under its name with its area; a later put under the same name replaces an earlier one. */
  function SubdirAreas(entries: seq<Node>): map<string, nat> {
    if entries == [] then map[]
    else
      var m := SubdirAreas(entries[..|entries| - 1]);
      var c := entries[|entries| - 1];
      if c.IsDirectory() then m[c.name := Area(c)] else m
  }

  /** Only directories get an entry, and every directory does, keyed by its name. */
  lemma {:induction false} SubdirKeys(entries: seq<Node>)
    ensures forall k :: k in SubdirAreas(entries) <==>
      exists i | 0 <= i < |entries| :: entries[i].IsDirectory() && entries[i].name == k
  {
    if entries != [] {
      var init := entries[..|entries| - 1];
      SubdirKeys(init);
      forall k
        ensures k in SubdirAreas(entries) <==>
          exists i | 0 <= i < |entries| :: entries[i].IsDirectory() && entries[i].name == k
      {
        if k in SubdirAreas(init) {
          var i :| 0 <= i < |init| && init[i].IsDirectory() && init[i].name == k;
          assert entries[i] == init[i];
        }
        if exists i | 0 <= i < |entries| :: entries[i].IsDirectory() && entries[i].name == k {
          var i :| 0 <= i < |entries| && entries[i].IsDirectory() && entries[i].name == k;
          if i < |init| {
            assert init[i] == entries[i];
          }
        }
      }
    }
  }

  /** The entries of the directories in a listing, in listing order. */
  function ChildEntries(entries: seq<Node>): seq<Entry> {
    if entries == [] then []
    else
      var head: seq<Entry> := if entries[0].IsDirectory() then [(entries[0].name, Area(entries[0]))] else [];
      head + ChildEntries(entries[1..])
  }

  lemma {:induction false} ChildEntriesAppend(a: seq<Node>, b: seq<Node>)
    ensures ChildEntries(a + b) == ChildEntries(a) + ChildEntries(b)
  {
    if a == [] {
      assert a + b == b;
    } else {
      assert (a + b)[0] == a[0];
      assert (a + b)[1..] == a[1..] + b;
      ChildEntriesAppend(a[1..], b);
    }
  }

  /** When the names in a listing are distinct, the map holds exactly one entry per
      directory of the listing, with that directory's area. */
  lemma {:induction false} SubdirEntrySet(entries: seq<Node>)
    requires DistinctNames(entries)
    ensures multiset(EntrySet(SubdirAreas(entries))) == multiset(ChildEntries(entries))
  {
    if entries != [] {
      var init := entries[..|entries| - 1];
      var c := entries[|entries| - 1];
      assert entries == init + [c];
      assert DistinctNames(init);
      SubdirEntrySet(init);
      ChildEntriesAppend(init, [c]);
      var single: seq<Node> := [c];
      assert single[1..] == [];
      if c.IsDirectory() {
        var m := SubdirAreas(init);
        SubdirKeys(init);
        forall i | 0 <= i < |init| ensures init[i].name != c.name {
          assert init[i] == entries[i];
        }
        assert c.name !in m;
        EntrySetOfNewKey(m, c.name, Area(c));
        assert (c.name, Area(c)) !in EntrySet(m);
      }
    }
  }

  /** HashMap.entrySet(): one (key, value) entry per key. */
  function EntrySet(m: map<string, nat>): set<Entry> {
    set k | k in m :: (k, m[k])
  }

  lemma EntrySetOfNewKey(m: map<string, nat>, k: string, v: nat)
    requires k !in m
    ensures EntrySet(m[k := v]) == EntrySet(m) + {(k, v)}
  {
    var m' := m[k := v];
    forall q | q in EntrySet(m') ensures q in EntrySet(m) + {(k, v)} {
      var a :| a in m' && q == (a, m'[a]);
      if a != k {
        assert q == (a, m[a]);
      }
    }
    forall q | q in EntrySet(m) + {(k, v)} ensures q in EntrySet(m') {
      if q != (k, v) {
        var a :| a in m && q == (a, m[a]);
        assert q == (a, m'[a]);
      } else {
        assert q == (k, m'[k]);
      }
    }
  }

  // ---------------------------------------------------------------------------
  // Sums of entries.
  // ---------------------------------------------------------------------------

  function SumAreas(es: seq<Entry>): nat {
    if es == [] then 0 else es[0].1 + SumAreas(es[1..])
  }

  lemma {:induction false} SumAreasAppend(a: seq<Entry>, b: seq<Entry>)
    ensures SumAreas(a + b) == SumAreas(a) + SumAreas(b)
  {
    if a == [] {
      assert a + b == b;
    } else {
      assert (a + b)[0] == a[0];
      assert (a + b)[1..] == a[1..] + b;
      SumAreasAppend(a[1..], b);
    }
  }

  /** Reordering entries does not change their sum. */
  lemma {:induction false} SumAreasPermutation(a: seq<Entry>, b: seq<Entry>)
    requires multiset(a) == multiset(b)
    ensures SumAreas(a) == SumAreas(b)
    decreases |a|
  {
    if a == [] {
      assert |b| == |multiset(b)| == 0;
    } else {
      assert a[0] in multiset(b);
      var i :| 0 <= i < |b| && b[i] == a[0];
      var rest := RemoveAt(b, i);
      assert a == [a[0]] + a[1..];
      assert multiset(a[1..]) == multiset(a) - multiset{a[0]};
      SumAreasPermutation(a[1..], rest);
    }
  }

  /** Takes out entry i; the sum drops by that entry's area. */
  lemma RemoveAt(b: seq<Entry>, i: nat) returns (rest: seq<Entry>)
    requires i < |b|
    ensures multiset(rest) == multiset(b) - multiset{b[i]}
    ensures SumAreas(b) == b[i].1 + SumAreas(rest)
  {
    rest := b[..i] + b[i + 1..];
    assert b == b[..i] + [b[i]] + b[i + 1..];
    SumAreasAppend(b[..i] + [b[i]], b[i + 1..]);
    SumAreasAppend(b[..i], [b[i]]);
    SumAreasAppend(b[..i], b[i + 1..]);
    var single: seq<Entry> := [b[i]];
    assert single[1..] == [];
  }

  lemma {:induction false} ChildEntriesSum(entries: seq<Node>)
    ensures SumAreas(ChildEntries(entries)) == SubdirArea(entries)
  {
    if entries != [] {
      ChildEntriesSum(entries[1..]);
      var head: seq<Entry> := if entries[0].IsDirectory() then [(entries[0].name, Area(entries[0]))] else [];
      SumAreasAppend(head, ChildEntries(entries[1..]));
      if entries[0].IsDirectory() {
        assert head[1..] == [];
      }
    }
  }

  lemma {:induction false} EntryAtMostSum(es: seq<Entry>, i: nat)
    requires i < |es|
    ensures es[i].1 <= SumAreas(es)
  {
    if i > 0 {
      EntryAtMostSum(es[1..], i - 1);
    }
  }

  /** Without undecodable files, the direct files have no area exactly when none of them qualifies. */
  lemma {:induction false} DirectAreaZero(entries: seq<Node>)
    requires forall i | 0 <= i < |entries| :: Healthy(entries[i])
    ensures DirectArea(entries) == 0 <==> forall i | 0 <= i < |entries| :: !entries[i].IsPng()
  {
    if entries != [] {
      assert forall i | 0 <= i < |entries[1..]| :: entries[1..][i] == entries[i + 1];
      DirectAreaZero(entries[1..]);
      if entries[0].IsPng() {
        assert Healthy(entries[0]);
        assert Area(entries[0]) > 0;
      }
      if forall i | 0 <= i < |entries[1..]| :: !entries[1..][i].IsPng() {
        if !entries[0].IsPng() {
          forall i | 0 <= i < |entries| ensures !entries[i].IsPng() {
            if i > 0 {
              assert entries[i] == entries[1..][i - 1];
            }
          }
        }
      }
    }
  }

  // ---------------------------------------------------------------------------
  // Ranking: the stream is sorted with a comparator that puts the larger area first.
  // ---------------------------------------------------------------------------

  /** Ordered by area, largest first. */
  predicate SortedDesc(es: seq<Entry>) {
    forall i, j | 0 <= i < j < |es| :: es[i].1 >= es[j].1
  }

  /** Places p before the first entry whose area is not larger than p's, so that the
      larger area comes first, as the source's comparator orders them. */
  function Insert(p: Entry, es: seq<Entry>): (r: seq<Entry>)
    requires SortedDesc(es)
    ensures SortedDesc(r)
    ensures multiset(r) == multiset(es) + multiset{p}
    ensures forall x | x in r :: x == p || x in es
  {
    if es == [] then [p]
    else if p.1 >= es[0].1 then
      ConsSorted(p, es);
      [p] + es
    else
      var tail := Insert(p, es[1..]);
      assert es == [es[0]] + es[1..];
      HeadBoundsInsertion(p, es, tail);
      ConsSorted(es[0], tail);
      [es[0]] + tail
  }

  lemma ConsSorted(x: Entry, es: seq<Entry>)
    requires SortedDesc(es)
    requires forall k | 0 <= k < |es| :: x.1 >= es[k].1
    ensures SortedDesc([x] + es)
  {
    forall i, j | 0 <= i < j < |es| + 1 ensures ([x] + es)[i].1 >= ([x] + es)[j].1 {
      if i > 0 {
        assert ([x] + es)[i] == es[i - 1];
      }
      assert ([x] + es)[j] == es[j - 1];
    }
  }

  /** The head of a sorted listing bounds everything an insertion behind it can produce. */
  lemma HeadBoundsInsertion(p: Entry, es: seq<Entry>, tail: seq<Entry>)
    requires SortedDesc(es) && es != [] && p.1 < es[0].1
    requires forall x | x in tail :: x == p || x in es[1..]
    ensures forall k | 0 <= k < |tail| :: es[0].1 >= tail[k].1
  {
    forall k | 0 <= k < |tail| ensures es[0].1 >= tail[k].1 {
      var x := tail[k];
      assert x in tail;
      if x != p {
        var i :| 0 <= i < |es[1..]| && es[1..][i] == x;
        assert es[i + 1] == x;
      }
    }
  }

  /** The sorted stream over the map's entries. */
  function SortDesc(es: seq<Entry>): (r: seq<Entry>)
    ensures SortedDesc(r)
    ensures multiset(r) == multiset(es)
  {
    if es == [] then []
    else
      assert es == [es[0]] + es[1..];
      Insert(es[0], SortDesc(es[1..]))
  }

  // ---------------------------------------------------------------------------
  // The report loop.
  // ---------------------------------------------------------------------------

  /** The loop over the root's listing that fills pixelsPerSubdirectory; the first
      subdirectory, in listing order, whose scan fails aborts it with that scan's error. */
  method ScanSubdirectories(files: seq<Node>) returns (r: Result<map<string, nat>, ScanError>)
    ensures r.Ok? <==> forall i | 0 <= i < |files| && files[i].IsDirectory() :: Healthy(files[i])
    ensures r.Ok? ==> r.value == SubdirAreas(files)
    ensures r.Err? ==> exists i | 0 <= i < |files| && files[i].IsDirectory() ::
      Scan(files[i]) == Err(r.error)
      && forall j | 0 <= j < i && files[j].IsDirectory() :: Healthy(files[j])
  {
    var pixelsPerSubdirectory: map<string, nat> := map[];
    var i := 0;
    while i < |files|
      invariant i <= |files|
      invariant forall j | 0 <= j < i && files[j].IsDirectory() :: Healthy(files[j])
      invariant pixelsPerSubdirectory == SubdirAreas(files[..i])
    {
      var file := files[i];
      assert files[..i + 1][..i] == files[..i];
      if file.IsDirectory() {
        var pixels := ScanDirectoryRecursively(file);
        ScanMeaning(file);
        if pixels.Err? {
          return Err(pixels.error);
        }
        pixelsPerSubdirectory := pixelsPerSubdirectory[file.name := pixels.value];
      }
      i := i + 1;
    }
    assert files[..i] == files;
    return Ok(pixelsPerSubdirectory);
  }

  /** `entrySet().stream()` over a HashMap: every entry exactly once, in an order
      nothing promises. */
  method EntriesInSomeOrder(m: map<string, nat>) returns (es: seq<Entry>)
    ensures multiset(es) == multiset(EntrySet(m))
  {
    es := [];
    var rest := EntrySet(m);
    while rest != {}
      invariant rest <= EntrySet(m)
      invariant multiset(es) + multiset(rest) == multiset(EntrySet(m))
      decreases |rest|
    {
      var e :| e in rest;
      assert multiset(rest - {e}) + multiset{e} == multiset(rest);
      es := es + [e];
      rest := rest - {e};
    }
  }

  /** A report describes a root whose scan succeeded: the root's path, the area of its
      whole subtree, and the per-subdirectory map's entries, each exactly once, largest first. */
  ghost predicate IsReportOf(root: Node, rep: Report) {
    root.Dir? && Healthy(root)
    && rep.path == root.name
    && rep.total == Area(root)
    && SortedDesc(rep.entries)
    && multiset(rep.entries) == multiset(EntrySet(SubdirAreas(root.children)))
  }

  /** The body of the loop in Main.scanDirectories for one directory root. */
  method BuildReport(root: Node) returns (r: Result<Report, ScanError>)
    requires root.IsDirectory()
    ensures r.Ok? <==> Scan(root).Ok?
    ensures r.Err? ==> Scan(root) == Err(r.error)
    ensures r.Ok? ==> IsReportOf(root, r.value)
  {
    var totalPixels := ScanDirectoryRecursively(root);
    ScanMeaning(root);
    if totalPixels.Err? {
      return Err(totalPixels.error);
    }
    var pixelsPerSubdirectory := ScanSubdirectories(root.children);
    // Every subdirectory lies inside the root, whose scan has just succeeded.
    assert pixelsPerSubdirectory.Ok?;
    var unordered := EntriesInSomeOrder(pixelsPerSubdirectory.value);
    var entries := SortDesc(unordered);
    return Ok(Report(root.name, totalPixels.value, entries));
  }

  /** The roots that are directories, in order; every other root is skipped. */
  function DirectoryRoots(roots: seq<Node>): (ds: seq<Node>)
    ensures forall i | 0 <= i < |ds| :: ds[i].IsDirectory()
    ensures |ds| <= |roots|
  {
    if roots == [] then []
    else
      var init := DirectoryRoots(roots[..|roots| - 1]);
      if roots[|roots| - 1].IsDirectory() then init + [roots[|roots| - 1]] else init
  }

  /** No directory root is dropped and nothing else is kept. */
  lemma {:induction false} DirectoryRootsMembers(roots: seq<Node>)
    ensures forall x :: x in DirectoryRoots(roots) <==> x in roots && x.IsDirectory()
  {
    if roots != [] {
      var init := roots[..|roots| - 1];
      DirectoryRootsMembers(init);
      assert roots == init + [roots[|roots| - 1]];
    }
  }

  lemma {:induction false} DirectoryRootsPrefix(roots: seq<Node>, k: nat)
    requires k <= |roots|
    ensures DirectoryRoots(roots[..k]) <= DirectoryRoots(roots)
    decreases |roots| - k
  {
    if k < |roots| {
      DirectoryRootsPrefix(roots, k + 1);
      assert roots[..k + 1][..k] == roots[..k];
    } else {
      assert roots[..k] == roots;
    }
  }

  /** One more root either adds itself to the directory roots or leaves them as they are. */
  lemma DirectoryRootsStep(roots: seq<Node>, i: nat)
    requires i < |roots|
    ensures DirectoryRoots(roots[..i + 1]) ==
      if roots[i].IsDirectory() then DirectoryRoots(roots[..i]) + [roots[i]] else DirectoryRoots(roots[..i])
  {
    assert roots[..i + 1][..i] == roots[..i];
  }

  lemma ReportsExtend(ds: seq<Node>, reports: seq<Report>, rep: Report)
    requires |reports| < |ds|
    requires forall j | 0 <= j < |reports| :: IsReportOf(ds[j], reports[j])
    requires IsReportOf(ds[|reports|], rep)
    ensures forall j | 0 <= j < |reports| + 1 :: IsReportOf(ds[j], (reports + [rep])[j])
  {
    forall j | 0 <= j < |reports| + 1 ensures IsReportOf(ds[j], (reports + [rep])[j]) {
      if j < |reports| {
        assert (reports + [rep])[j] == reports[j];
      }
    }
  }

  /** Main.scanDirectories: non-directory roots are skipped; each directory root gets
      its report in turn, until the first root whose scan fails, which ends the batch
      (the exception leaves the method) with that root's error. */
  method ScanDirectories(roots: seq<Node>) returns (reports: seq<Report>, failure: Option<ScanError>)
    ensures |reports| <= |DirectoryRoots(roots)|
    ensures forall i | 0 <= i < |reports| :: IsReportOf(DirectoryRoots(roots)[i], reports[i])
    ensures failure.None? <==> |reports| == |DirectoryRoots(roots)|
    ensures failure.Some? ==> Scan(DirectoryRoots(roots)[|reports|]) == Err(failure.value)
  {
    reports := [];
    ghost var ds := DirectoryRoots(roots);
    var i := 0;
    while i < |roots|
      invariant i <= |roots|
      invariant |reports| == |DirectoryRoots(roots[..i])|
      invariant DirectoryRoots(roots[..i]) <= ds
      invariant forall j | 0 <= j < |reports| :: IsReportOf(ds[j], reports[j])
    {
      var directory := roots[i];
      DirectoryRootsStep(roots, i);
      DirectoryRootsPrefix(roots, i + 1);
      if !directory.IsDirectory() {
        i := i + 1;
        continue;
      }
      assert ds[|reports|] == directory;
      var report := BuildReport(directory);
      if report.Err? {
        return reports, Some(report.error);
      }
      ReportsExtend(ds, reports, report.value);
      reports := reports + [report.value];
      i := i + 1;
    }
    assert roots[..i] == roots;
    return reports, None;
  }

  // ---------------------------------------------------------------------------
  // Properties of a report.
  // ---------------------------------------------------------------------------

  /** The subtotals never exceed the root's total; they add up to it exactly when no
      qualifying file lies directly in the root. Hence every entry's share is between 0 and 1. */
  lemma SubtotalsWithinTotal(root: Node, rep: Report)
    requires IsReportOf(root, rep)
    requires DistinctNames(root.children)
    ensures SumAreas(rep.entries) + DirectArea(root.children) == rep.total
    ensures SumAreas(rep.entries) <= rep.total
    ensures SumAreas(rep.entries) == rep.total <==>
      forall i | 0 <= i < |root.children| :: !root.children[i].IsPng()
    ensures forall i | 0 <= i < |rep.entries| ::
      0.0 <= Share.Share(rep.entries[i].1, rep.total) <= 1.0
  {
    ScanMeaning(root);
    ScanIsAdditive(root);
    SubdirEntrySet(root.children);
    SumAreasPermutation(rep.entries, ChildEntries(root.children));
    ChildEntriesSum(root.children);
    DirectAreaZero(root.children);
    forall i | 0 <= i < |rep.entries|
      ensures 0.0 <= Share.Share(rep.entries[i].1, rep.total) <= 1.0
    {
      EntryAtMostSum(rep.entries, i);
      Share.ShareBounds(rep.entries[i].1, rep.total);
    }
  }

  /** Each entry is the subtotal of one immediate subdirectory of the root, keyed by its name. */
  lemma EntriesAreSubdirectories(root: Node, rep: Report, i: nat)
    requires IsReportOf(root, rep)
    requires i < |rep.entries|
    ensures exists j | 0 <= j < |root.children| ::
      root.children[j].IsDirectory() && root.children[j].name == rep.entries[i].0
    ensures rep.entries[i].0 in SubdirAreas(root.children)
      && SubdirAreas(root.children)[rep.entries[i].0] == rep.entries[i].1
  {
    assert rep.entries[i] in multiset(EntrySet(SubdirAreas(root.children)));
    SubdirKeys(root.children);
  }
}

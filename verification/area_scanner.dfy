/** The recursive pixel-area scan (Main.scanDirectoryRecursively): a depth-first walk
    that adds width * height for every qualifying file, recurses into directories,
    ignores everything else, and aborts as a whole on the first failure. */
module AreaScanner {
  import opened Wrappers
  import opened FileTree

  /** Why a scan aborts: a qualifying file that does not decode, or a directory
      whose listing cannot be read. */
  datatype ScanError = DecodeFailed(file: string) | ListingFailed(dir: string)

  // ---------------------------------------------------------------------------
  // The scan as the code runs it: a left-to-right fold over each listing that
  // stops at the first failing entry.
  // ---------------------------------------------------------------------------

  /** What one listed entry adds to its directory's running count. */
  function Contribution(e: Node): Result<nat, ScanError>
    decreases e, 2
  {
    if e.IsPng() then
      match e.image
      case None => Err(DecodeFailed(e.name))
      case Some(d) => Ok(d.width * d.height)
    else if e.IsDirectory() then
      Scan(e)
    else
      Ok(0)
  }

  /** The running count after the first k entries of dir's listing. */
  function ScanPrefix(dir: Node, k: nat): Result<nat, ScanError>
    requires dir.Dir? && k <= |dir.children|
    decreases dir, 0, k
  {
    if k == 0 then Ok(0)
    else
      match ScanPrefix(dir, k - 1)
      case Err(e) => Err(e)
      case Ok(count) =>
        match Contribution(dir.children[k - 1])
        case Err(e) => Err(e)
        case Ok(a) => Ok(count + a)
  }

  /** The scan of a whole directory. */
  function Scan(dir: Node): Result<nat, ScanError>
    requires dir.IsDirectory()
    decreases dir, 1
  {
    if dir.Unlistable? then Err(ListingFailed(dir.name))
    else ScanPrefix(dir, |dir.children|)
  }

  // ---------------------------------------------------------------------------
  // The reference definition: the sum of width * height over every decodable
  // qualifying file in the subtree, with no notion of failure.
  // ---------------------------------------------------------------------------

  function Area(n: Node): nat
    decreases n, 1
  {
    match n
    case File(_, image) =>
      if n.IsPng() && image.Some? then image.value.width * image.value.height else 0
    case Dir(_, _) => AreaFrom(n, 0)
    case _ => 0
  }

  /** Sum of Area over the entries of dir's listing from index k on. */
  function AreaFrom(dir: Node, k: nat): nat
    requires dir.Dir? && k <= |dir.children|
    decreases dir, 0, |dir.children| - k
  {
    if k == |dir.children| then 0 else Area(dir.children[k]) + AreaFrom(dir, k + 1)
  }

  /** Pixel area of the qualifying files listed directly in `entries`. */
  function DirectArea(entries: seq<Node>): nat {
    if entries == [] then 0
    else (if entries[0].IsPng() then Area(entries[0]) else 0) + DirectArea(entries[1..])
  }

  /** Sum of the areas of the directories listed directly in `entries`. */
  function SubdirArea(entries: seq<Node>): nat {
    if entries == [] then 0
    else (if entries[0].IsDirectory() then Area(entries[0]) else 0) + SubdirArea(entries[1..])
  }

  // ---------------------------------------------------------------------------
  // What the scan computes.
  // ---------------------------------------------------------------------------

  /** Fail-fast, both ways: the scan of a directory succeeds exactly when nothing
      in its subtree fails, and then it returns the subtree's pixel area. */
  lemma {:induction false} ScanMeaning(dir: Node)
    requires dir.IsDirectory()
    ensures Scan(dir).Ok? <==> Healthy(dir)
    ensures Scan(dir).Ok? ==> Scan(dir).value == Area(dir)
    decreases dir, 1
  {
    if dir.Dir? {
      PrefixMeaning(dir, |dir.children|);
    }
  }

  lemma {:induction false} PrefixMeaning(dir: Node, k: nat)
    requires dir.Dir? && k <= |dir.children|
    ensures ScanPrefix(dir, k).Ok? <==> forall i | 0 <= i < k :: Healthy(dir.children[i])
    ensures ScanPrefix(dir, k).Ok? ==> ScanPrefix(dir, k).value + AreaFrom(dir, k) == Area(dir)
    decreases dir, 0, k
  {
    if k == 0 {
      assert Area(dir) == AreaFrom(dir, 0);
    } else {
      PrefixMeaning(dir, k - 1);
      ContributionMeaning(dir.children[k - 1]);
    }
  }

  lemma {:induction false} ContributionMeaning(e: Node)
    ensures Contribution(e).Ok? <==> Healthy(e)
    ensures Contribution(e).Ok? ==> Contribution(e).value == Area(e)
    decreases e, 2
  {
    if !e.IsPng() && e.IsDirectory() {
      ScanMeaning(e);
    }
  }

  /** Once a prefix of the listing has failed, the whole listing fails with the same error. */
  lemma {:induction false} FailurePersists(dir: Node, k: nat)
    requires dir.Dir? && k <= |dir.children|
    requires ScanPrefix(dir, k).Err?
    ensures ScanPrefix(dir, |dir.children|) == ScanPrefix(dir, k)
    decreases |dir.children| - k
  {
    if k < |dir.children| {
      FailurePersists(dir, k + 1);
    }
  }

  /** Bottom-up additivity of the reference definition. */
  lemma {:induction false} AreaFromSplits(dir: Node, k: nat)
    requires dir.Dir? && k <= |dir.children|
    ensures AreaFrom(dir, k) == DirectArea(dir.children[k..]) + SubdirArea(dir.children[k..])
    decreases |dir.children| - k
  {
    var rest := dir.children[k..];
    if k < |dir.children| {
      AreaFromSplits(dir, k + 1);
      assert rest[0] == dir.children[k];
      assert rest[1..] == dir.children[k + 1..];
      var c := dir.children[k];
      if c.Dir? || c.Unlistable? {
        assert !c.IsPng();
      } else if !c.IsPng() {
        assert Area(c) == 0;
      }
    } else {
      assert rest == [];
    }
  }

  /** Additivity of the scan: a successful scan of a directory equals the area of the
      qualifying files directly inside it plus the scans of its immediate
      subdirectories, each of which succeeds. */
  lemma ScanIsAdditive(dir: Node)
    requires dir.Dir?
    requires Scan(dir).Ok?
    ensures forall i | 0 <= i < |dir.children| && dir.children[i].IsDirectory() ::
      Scan(dir.children[i]) == Ok(Area(dir.children[i]))
    ensures Scan(dir).value == DirectArea(dir.children) + SubdirArea(dir.children)
  {
    ScanMeaning(dir);
    forall i | 0 <= i < |dir.children| && dir.children[i].IsDirectory()
      ensures Scan(dir.children[i]) == Ok(Area(dir.children[i]))
    {
      ScanMeaning(dir.children[i]);
    }
    AreaFromSplits(dir, 0);
    assert dir.children[0..] == dir.children;
  }

  /** A subtree with no qualifying file anywhere has area 0, so a successful scan of it returns 0. */
  lemma {:induction false} NoPngScansToZero(dir: Node)
    requires dir.IsDirectory() && NoPng(dir)
    ensures Area(dir) == 0
    ensures Scan(dir).Ok? ==> Scan(dir) == Ok(0)
    decreases dir, 1
  {
    if dir.Dir? {
      NoPngAreaFrom(dir, 0);
    }
    ScanMeaning(dir);
  }

  lemma {:induction false} NoPngAreaFrom(dir: Node, k: nat)
    requires dir.Dir? && k <= |dir.children| && NoPng(dir)
    ensures AreaFrom(dir, k) == 0
    decreases dir, 0, |dir.children| - k
  {
    if k < |dir.children| {
      var c := dir.children[k];
      assert NoPng(c);
      if c.IsDirectory() {
        NoPngScansToZero(c);
      }
      NoPngAreaFrom(dir, k + 1);
    }
  }

  /** Only qualifying files and directories matter: an entry that is neither
      contributes nothing and raises no error, so dropping it from the listing
      leaves the scan unchanged. */
  lemma IgnoredEntryIsInvisible(dir: Node, i: nat)
    requires dir.Dir? && i < |dir.children|
    requires !dir.children[i].IsPng() && !dir.children[i].IsDirectory()
    ensures Scan(Dir(dir.name, dir.children[..i] + dir.children[i + 1..])) == Scan(dir)
  {
    var rest := Dir(dir.name, dir.children[..i] + dir.children[i + 1..]);
    ShiftedPrefix(dir, rest, i, |rest.children|);
  }

  /** Two listings that agree on their first k entries agree on the count after them. */
  lemma {:induction false} SamePrefixSameCount(d1: Node, d2: Node, k: nat)
    requires d1.Dir? && d2.Dir? && k <= |d1.children| && k <= |d2.children|
    requires d1.children[..k] == d2.children[..k]
    ensures ScanPrefix(d1, k) == ScanPrefix(d2, k)
  {
    if k > 0 {
      assert d1.children[..k - 1] == d1.children[..k][..k - 1];
      assert d2.children[..k - 1] == d2.children[..k][..k - 1];
      assert d1.children[k - 1] == d1.children[..k][k - 1];
      assert d2.children[k - 1] == d2.children[..k][k - 1];
      SamePrefixSameCount(d1, d2, k - 1);
    }
  }

  /** With entry i dropped, the count after j entries equals the original count after j + 1. */
  lemma {:induction false} ShiftedPrefix(dir: Node, rest: Node, i: nat, j: nat)
    requires dir.Dir? && i < |dir.children|
    requires !dir.children[i].IsPng() && !dir.children[i].IsDirectory()
    requires rest == Dir(dir.name, dir.children[..i] + dir.children[i + 1..])
    requires i <= j <= |rest.children|
    ensures ScanPrefix(rest, j) == ScanPrefix(dir, j + 1)
    decreases j
  {
    if j == i {
      assert rest.children[..i] == dir.children[..i];
      SamePrefixSameCount(rest, dir, i);
    } else {
      ShiftedPrefix(dir, rest, i, j - 1);
      assert rest.children[j - 1] == dir.children[j];
    }
  }

  // ---------------------------------------------------------------------------
  // The scan as a loop over the listing, recursing into directories.
  // ---------------------------------------------------------------------------

  /** Main.scanDirectoryRecursively. */
  method ScanDirectoryRecursively(dir: Node) returns (r: Result<nat, ScanError>)
    requires dir.IsDirectory()
    ensures r == Scan(dir)
    decreases dir
  {
    if dir.Unlistable? {
      return Err(ListingFailed(dir.name));
    }
    var files := dir.children;
    var count: nat := 0;
    var i := 0;
    while i < |files|
      invariant i <= |files|
      invariant ScanPrefix(dir, i) == Ok(count)
    {
      var file := files[i];
      if file.IsPng() {
        if file.image.None? {
          FailurePersists(dir, i + 1);
          return Err(DecodeFailed(file.name));
        }
        count := count + file.image.value.width * file.image.value.height;
      } else if file.IsDirectory() {
        var pixels := ScanDirectoryRecursively(file);
        if pixels.Err? {
          FailurePersists(dir, i + 1);
          return Err(pixels.error);
        }
        count := count + pixels.value;
      }
      i := i + 1;
    }
    return Ok(count);
  }
}

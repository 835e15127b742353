# Pixel Scanner, modelled in Dafny

Pixel Scanner takes directories dropped on its window. For each one it reports the
total pixel area (width × height, summed) of every `.png` file anywhere beneath it.
It also breaks that total down per immediate subdirectory, ranks the subdirectories
by area, largest first, and shows each one's share of the total, highlighted when the
share is at least 20%.

This project models the logic behind that report and proves properties of it. The
file system and the image decoder are replaced by a finite tree of entries
(`FileTree.Node`):

- a regular file, with the dimensions it decodes to, or none when decoding fails;
- a directory, with its listing in order;
- a directory whose listing cannot be read;
- an entry that is neither a file nor a directory.

Files:

- `wrappers.dfy`: `Option` and `Result`. `Result` stands for a Java method that
  returns a value or throws.
- `file_tree.dfy`: the tree, the `.png` suffix test, and the predicates `Healthy`
  (nothing in the subtree fails), `NoPng` and `DistinctNames`.
- `area_scanner.dfy`: the recursive scan. `Scan` is the fail-fast fold the Java loop
  performs. `Area` is an independent reference definition: the sum of width × height
  over the decodable `.png` files of a subtree. The method `ScanDirectoryRecursively`
  is the loop itself and is proved equal to `Scan`. The lemmas tie `Scan` to `Area`
  and `Healthy`.
- `directory_report.dfy`: the per-root report. It covers the map from subdirectory
  name to subtotal, the enumeration of that map in an unspecified order, the
  descending sort, one root's report, and the batch over all dropped roots.
- `share.dfy`: an entry's share of its root's total and the high/low classification.

Behaviour of the batch over several dropped roots, as the code has it:

- A dropped item that is not a directory is skipped silently (`continue`). It produces
  neither a report nor an error.
- A scan failure throws a `RuntimeException` out of `scanDirectories`, which ends the
  whole batch. The roots already reported stay reported; roots after the failing one
  are never scanned. `ScanDirectories` models exactly this.
- A listing that cannot be read makes `Objects.requireNonNull` throw. The model
  reports it as `ListingFailed`.

## Model

| member | source | states |
|---|---|---|
| AreaScanner.ScanDirectoryRecursively | src/main/java/com/rafaskoberg/pixelscanner/Main.java:175-191 | The loop returns exactly `Scan(dir)`: the count after the whole listing, or the error of the first failing entry in listing order. An unreadable listing fails at once. |
| AreaScanner.ScanMeaning | src/main/java/com/rafaskoberg/pixelscanner/Main.java:175-191 | A directory's scan succeeds if and only if no `.png` in its subtree fails to decode and every directory in it can be listed. When it succeeds, it returns the subtree's total pixel area. |
| AreaScanner.PrefixMeaning | src/main/java/com/rafaskoberg/pixelscanner/Main.java:177-189 | After the first k entries, the running count is an Ok value exactly when those k entries are healthy. That count plus the area of the remaining entries is the directory's area. |
| AreaScanner.ContributionMeaning | src/main/java/com/rafaskoberg/pixelscanner/Main.java:178-188 | One entry's contribution succeeds exactly when the entry is healthy. Its value is the entry's area: width × height for a `.png` file, the subtree's area for a directory, 0 for anything else. |
| AreaScanner.FailurePersists | src/main/java/com/rafaskoberg/pixelscanner/Main.java:179-185 | Once an entry has failed, the result for the whole listing is that same error. No partial total is returned and nothing counts as 0. |
| AreaScanner.AreaFromSplits | src/main/java/com/rafaskoberg/pixelscanner/Main.java:176-190 | The area of a listing's entries from index k on is the area of the `.png` files among them plus the areas of the directories among them. |
| AreaScanner.ScanIsAdditive | src/main/java/com/rafaskoberg/pixelscanner/Main.java:176-190 | A successful scan equals the area of the `.png` files directly in the directory plus the sum of its child directories' areas. Each child directory's own scan succeeds with that area. |
| AreaScanner.NoPngScansToZero | src/main/java/com/rafaskoberg/pixelscanner/Main.java:176-190 | A subtree with no `.png` file anywhere has area 0, so a successful scan of it returns 0. |
| AreaScanner.NoPngAreaFrom | src/main/java/com/rafaskoberg/pixelscanner/Main.java:177-189 | Every suffix of a listing without `.png` files adds up to 0. |
| AreaScanner.IgnoredEntryIsInvisible | src/main/java/com/rafaskoberg/pixelscanner/Main.java:178-188 | Removing an entry that is neither a `.png` regular file nor a directory leaves the scan unchanged, both its value and its error. |
| AreaScanner.SamePrefixSameCount | src/main/java/com/rafaskoberg/pixelscanner/Main.java:177-189 | The running count after k entries depends only on those k entries. |
| AreaScanner.ShiftedPrefix | src/main/java/com/rafaskoberg/pixelscanner/Main.java:177-189 | With an ignored entry removed, the count after j entries equals the original count after j + 1. |
| DirectoryReport.SubdirKeys | src/main/java/com/rafaskoberg/pixelscanner/Main.java:127-133 | A name is a key of the per-subdirectory map exactly when some directory in the root's listing has that name. Plain files never get a key. |
| DirectoryReport.SubdirEntrySet | src/main/java/com/rafaskoberg/pixelscanner/Main.java:127-133 | With distinct names, the map's entries are exactly the root's child directories, each paired with its area. |
| DirectoryReport.DirectAreaZero | src/main/java/com/rafaskoberg/pixelscanner/Main.java:178-182 | Among entries that all decode, the `.png` files have total area 0 exactly when there is none (a decoded image is never empty). |
| DirectoryReport.ScanSubdirectories | src/main/java/com/rafaskoberg/pixelscanner/Main.java:127-133 | The subdirectory loop succeeds exactly when every child directory is healthy, and then yields `SubdirAreas`. On failure, the error is the scan error of the first failing child directory in listing order. |
| DirectoryReport.EntriesInSomeOrder | src/main/java/com/rafaskoberg/pixelscanner/Main.java:136 | Streaming the map's entry set yields every entry exactly once, in an unspecified order. |
| DirectoryReport.Insert | src/main/java/com/rafaskoberg/pixelscanner/Main.java:136 | Inserting an entry into a list ordered largest area first, as the comparator orders it, keeps the list ordered. It adds exactly that entry and nothing else. |
| DirectoryReport.SortDesc | src/main/java/com/rafaskoberg/pixelscanner/Main.java:136 | The result is ordered by area, largest first (non-increasing), and is a permutation of the input. |
| DirectoryReport.BuildReport | src/main/java/com/rafaskoberg/pixelscanner/Main.java:123-136 | A directory root gets a report exactly when the root's scan succeeds, which `ScanMeaning` shows happens exactly when its subtree is healthy. Otherwise it fails with the error of the root's scan. A report holds the root's name, the subtree's total area, and the map's entries, each exactly once, largest first. |
| DirectoryReport.DirectoryRoots | src/main/java/com/rafaskoberg/pixelscanner/Main.java:122-123 | Every kept root is a directory, and no more roots are kept than were given. |
| DirectoryReport.DirectoryRootsMembers | src/main/java/com/rafaskoberg/pixelscanner/Main.java:122-123 | A root is kept exactly when it is one of the given roots and a directory: no directory root is dropped. |
| DirectoryReport.ScanDirectories | src/main/java/com/rafaskoberg/pixelscanner/Main.java:122-136 | Reports come in order for the directory roots, with non-directories skipped, up to the first root whose scan fails. The batch then ends with that root's error. Without a failure, every directory root gets its report. |
| DirectoryReport.SubtotalsWithinTotal | src/main/java/com/rafaskoberg/pixelscanner/Main.java:126-133 | The subtotals plus the area of the `.png` files directly in the root equal the total. So their sum is at most the total, and equal to it exactly when no `.png` file lies directly in the root. Every entry's share is between 0 and 1. |
| DirectoryReport.EntriesAreSubdirectories | src/main/java/com/rafaskoberg/pixelscanner/Main.java:127-136 | Every reported entry is named after a child directory of the root and carries that name's value in the map. |
| Share.Share | src/main/java/com/rafaskoberg/pixelscanner/Main.java:151 | The share is 0 when the total is 0. Otherwise it is the number that, multiplied by the total, gives the area. |
| Share.Percentage | src/main/java/com/rafaskoberg/pixelscanner/Main.java:152 | The percentage is 0 when the total is 0. Otherwise, multiplied by the total, it gives 100 × area, so it is a hundred times the share; it is 100 for an entry holding the whole total. |
| Share.IsHighIff | src/main/java/com/rafaskoberg/pixelscanner/Main.java:151-153 | An entry is high (share ≥ the 0.2 threshold of line 30) exactly when the total is positive and 5 × area ≥ total. The boundary counts as high. |
| Share.ShareBounds | src/main/java/com/rafaskoberg/pixelscanner/Main.java:151 | An area within the total has a share between 0 and 1. The share is 1 exactly when the area is the whole, positive total. |

## Left out

- The Swing window, styles, drag-and-drop, the `print` helper and all text output: presentation, not logic.
- `SwingUtilities.invokeLater` thread hopping: UI scheduling only.
- The real file system. `listFiles`, `isFile` and `isDirectory` are replaced by the finite tree, so link cycles and concurrent changes cannot happen.
- DirectoryReport.BuildReport: asserts that the subdirectory loop cannot fail once the root's own scan has succeeded. In the model the tree cannot change between the two scans. On a real disk it could, and the source would then throw from that loop.
- `ImageIO.read` decoding: a foreign library, represented by the dimensions a file decodes to, or none when decoding throws or returns null.
- Exception messages: an error records only the kind of failure (decode or listing) and the name of the entry.
- `getAbsolutePath()`: a root's name stands for its path.
- Share.Share: computed with exact rationals, whereas the source divides in single-precision `float` and compares against `0.2f`. Near 20% the float rounding can classify differently from the exact comparison.
- The `Math.sqrt` "px²" display and the `%.0f` rounding of the percentage: display formatting.
- The 64-bit `long` accumulator: areas are unbounded integers, so overflow is not modelled.
- DirectoryReport.SubtotalsWithinTotal: assumes the root's entries have distinct names, as any directory listing has. With duplicate names, `HashMap.put` would keep only the last subtotal under a name.
- DirectoryReport.SortDesc: a deterministic stable insertion sort. Java's stream sort gives no order among equal areas, so `BuildReport` and `ScanDirectories` promise only sortedness and permutation.
- `build.gradle.kts`: build configuration, no logic.

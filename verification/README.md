# ocdutils and mediatools in Dafny

A model of the photo and media housekeeping tools in the `ocdutils` and
`mediatools` packages, with proofs of what their code promises. The
centre is the near-duplicate image finder:

- each image is reduced to a fingerprint by a sequential stand-in for the thread pool, which keeps input order:
  - an average hash (`averagehash.py`, `imagehashcmp.py`);
  - or a grey-level histogram (`cv2histogram.py`, `cv2cmp.py`);
- images are then grouped:
  - by exact hash, with a stable sort and `itertools.groupby`;
  - or by a greedy anchor scan of pairwise correlations, whose groups are never merged;
- `mdupes.py` and `similarimages.py` bucket files by checksum and build the similarity matrix.

Around the finder, the model covers the filesystem tools that act on what they find:

- **Operations layer** (`ocdutils/filesystem.py`): renames, timestamp changes, dry-run commands and directory walks.
- **Extension and permission fixers**: `filesystemfixes.py`, `ocdfslinter.py` and `fsjanitor.py`.
- **Motion photos**: splitting and joining the image and its embedded video.
- **Sidecars**: finding the videos that belong to a photo.
- **Renaming by date or checksum**:
  - EXIF dates (`dtnamer.py`, `metadata/handlers.py`);
  - CRC-32 checksums (`renamers.py`).
- **Transcript search** (`audio.py`, `audiogrep.py`): a lookup with a cache and a sidecar fallback.
- **Supporting library**: the logging set-up, the hook and plugin registries, and the on-disk cache.

Code that is pure computation is modelled as functions and lemmas. Code that changes state step by step is modelled as classes and methods with loop invariants. Each method states what it returns and its whole new state, as a function of its inputs and the old state; where a loop runs over a list, that function is a fold over the list, and the properties the code promises are proved about it as lemmas.

The model leaves these out and takes them as parameters:

- image decoding, hashing and correlation;
- MIME sniffing, `strftime` and `strptime`;
- SHA digests, module import and directory listing.

The filesystem is a map from paths to contents or times. Python's `sorted`, `itertools.groupby`, `str.lower` and `str.replace` are defined once, in `seqs.dfy` and `strings.dfy`. `pathlib`'s suffix rules are defined in `paths.dfy`.

Some behaviour of the code is worth stating outright, because a reader might expect otherwise:

- A histogram matcher threshold is rejected only outside [0, 1], both ends included.
- A hash size is never checked to be a power of two: `hash_size or 8` turns 0 and None into 8 and keeps anything else.
- `cv2cmp.py` keeps the default threshold of 90, so with correlations at most 1 it never clusters. The fraction it evidently means is modelled beside it.
- The histogram engine indexes the histograms as written. The corrected indexing is modelled beside it, and its groups are proved equal to those of `cv2cmp.py`.

## Model

| member | source | states |
|---|---|---|
| Paths.Extension | mediatools/lib/filesystem.py:45-46 | the extension is the suffix without its leading dot: empty exactly when there is no suffix, otherwise non-empty and dot-free |
| Paths.ChangeExtension | mediatools/lib/filesystem.py:152-153 | the new path keeps the parent and is named stem + "." + extension |
| Paths.ChangeExtensionSuffix | mediatools/lib/filesystem.py:152-153 | with a non-empty dot-free extension, the new path has exactly that suffix, keeps the stem, and `get_file_extension` gives the extension back |
| Paths.AlternativeFilename | mediatools/lib/filesystem.py:148-149 | the alternative keeps the parent and is named stem + "." + token + suffix |
| Paths.AlternativeFilenameShape | mediatools/lib/filesystem.py:148-149 | with a six-character `_random_string` token the alternative keeps the suffix (or gets ".token" when there was none), lengthens the stem by ".token", and is never the original path |
| Paths.ToString | mediatools/lib/filesystem.py:41-42 | `as_posix` joins parent and name with one slash, or gives the bare name when there is no parent |
| Paths.JpegsOf | mediatools/backends/cv2histogram.py:58 | the JPEG filter keeps exactly the files whose lower-cased suffix is `.jpg` or `.jpeg` and never adds any |
| Crc32.UpdateAppend | mediatools/renamers.py:98 | continuing `zlib.crc32(chunk, prev)` over two pieces gives the checksum of their concatenation |
| Crc32.ChecksumEmpty | mediatools/lib/hashing.py:25-26 | the CRC-32 of no data is 0 |
| Crc32.CheckValue | mediatools/lib/hashing.py:25-26 | the CRC-32 of the ASCII text "123456789" is 0xCBF43926, the standard check value |
| Crc32.Hex | mediatools/lib/hashing.py:26 | `hex(n)[2:]` is non-empty lower-case hexadecimal denoting n, without a leading zero unless n is 0 |
| Crc32.HashFromBytes | mediatools/lib/hashing.py:25-26 | `crc32_hash_frombytes` gives one to eight lower-case hex digits denoting the CRC-32 of the data |
| Crc32.HashFromBytesEmpty | mediatools/lib/hashing.py:25-26 | the hash of empty data is "0" |
| Crc32.Hex8 | mediatools/renamers.py:71 | `f"{n:08x}"` is at least eight lower-case hex digits denoting n |
| Crc32.Hex8Width | mediatools/renamers.py:71 | a 32-bit value renders as exactly eight digits |
| Renamers.GetCrc32 | mediatools/renamers.py:77-100 | folding `zlib.crc32` over 4096-byte reads from 0 gives the CRC-32 of the whole file |
| Renamers.HashFromPath | mediatools/lib/hashing.py:29-31 | the hash of a file is one to eight hex digits denoting the CRC-32 of its whole contents |
| Renamers.Crc32FilePath | mediatools/renamers.py:60-74 | the new path keeps the parent and is named by the eight-digit checksum followed by the old suffix |
| Renamers.Crc32FilePathShape | mediatools/renamers.py:60-74 | the new stem is exactly eight digits denoting the checksum and the new suffix is the old one |
| Renamers.RenameStep | mediatools/renamers.py:46-57 | a vanished source ends the command with an error and no output; a destination that exists, without `--force`, is reported on standard error and skipped; otherwise the move is printed on standard output exactly when dry-running or verbose, a dry run returns there, and any other run moves the file to its checksum name; a dry run changes nothing |
| Renamers.Then | mediatools/renamers.py:43-57 | prefixing lines keeps the disk, the stop flag and the result |
| Renamers.RenameAllFrom | mediatools/renamers.py:43-57 | from the i-th source, the command is one iteration, then the rest unless that iteration returned |
| Renamers.ThenThen | mediatools/renamers.py:43-57 | echoing two blocks of lines one after the other is echoing their concatenation |
| Renamers.DryStep | mediatools/renamers.py:51-55 | a dry-run iteration moves nothing, and prints on standard output only when it returns |
| Renamers.RenameAllDryRun | mediatools/renamers.py:43-57 | with `--dry-run` no file or directory changes, and at most one line reaches standard output: the move printed last, after which the command has returned |
| Renamers.RenameStepKept | mediatools/renamers.py:46-57 | one iteration leaves every file untouched or stored under its own checksum name |
| Renamers.RenameAllKept | mediatools/renamers.py:43-57 | after the command every file is untouched or named by its own checksum |
| Renamers.RenameAllCount | mediatools/renamers.py:43-57 | without `--force` no move lands on an existing file, so the number of files is unchanged |
| Renamers.Crc32RenameCmd | mediatools/renamers.py:35-57 | the disk, the lines echoed and the result are those of `RenameAll`, the iterations over the sources in order, stopping at the first that returns |
| Renamers.RenameOne | mediatools/renamers.py:46-57 | the new disk, the lines echoed, the stop flag and the result are those of `RenameStep`; in particular, for a present source whose destination is usable, the command stops exactly on a dry run and the move is echoed exactly when dry-running or verbose |
| Renamers.MoveKeepsCount | mediatools/renamers.py:57 | moving onto a free name keeps the number of files |
| Renamers.DestinationUsable | mediatools/renamers.py:47-57 | `safe_mv` with the checksum name picks that name when it is free or `--force` is given |
| Renamers.KeptOrRenamedTransitive | mediatools/renamers.py:43-57 | "untouched or renamed by checksum" composes over iterations |
| Renamers.MoveToChecksumName | mediatools/renamers.py:57 | a move onto the checksum name keeps every other file and names the moved one by its checksum |
| Disk.FileSystem.SafeWriteBytes | mediatools/lib/filesystem.py:194-200 | the data goes to the destination when it is absent or `overwrite` is set, otherwise to one alternative name that is not checked again; only that file changes |
| Disk.FileSystem.SafeCopyOrMove | mediatools/lib/filesystem.py:208-242 | the parent directory is created; the file goes to the first usable candidate (with `overwrite` the destination, else the first absent one); a copy adds it, a move also removes the source; no usable candidate or a missing source leaves the files unchanged |
| Disk.FileSystem.SafeMove | mediatools/lib/filesystem.py:251-254 | `safe_mv` is the move case of the above |
| Disk.FileSystem.SafeCopy | mediatools/lib/filesystem.py:245-248 | `safe_cp` is the copy case of the above |
| Disk.Candidates | mediatools/lib/filesystem.py:142-145 | the destination comes first, then one alternative name per supplied token, in order (a finite prefix of the endless generator; see Left out) |
| Disk.FirstUsable | mediatools/lib/filesystem.py:221-223 | the candidate picked is one of the candidates; without `overwrite` it is absent; with `overwrite` it is the destination; none is picked exactly when every candidate exists |
| Disk.Transfer | mediatools/lib/filesystem.py:225-235 | the destination gets the source's contents; a copy changes nothing else; a move also removes the source; every other file is kept |
| Disk.NeverClobbers | mediatools/lib/filesystem.py:221-223 | without `overwrite` the destination chosen is a free name and no existing file is lost, except the source of a move |
| Disk.TargetEvents | mediatools/lib/filesystem.py:84-100 | a file target is yielded itself; a directory with `--recursive` yields the files of its walk in order; anything else reports one message |
| Disk.IterFilesInTargets | mediatools/lib/filesystem.py:73-100 | the yielded files and reported messages are those of each target in turn |
| Disk.YieldedComeFromTargets | mediatools/lib/filesystem.py:84-100 | every yielded file is a file target or a file in the walk of a directory target with `--recursive` |
| Disk.YieldedAppend | mediatools/lib/filesystem.py:84-100 | the files yielded by a sequence of events are those of its first part followed by those of the rest |
| Disk.WalkNeverPrunes | mediatools/lib/filesystem.py:60-62 | the set of names `walk` removes from `dirs` is always empty, so the walk descends into every subdirectory |
| FsOps.NewTimes | ocdutils/filesystem.py:90-103 | each time becomes the timestamp when its flag is set and keeps its current value otherwise |
| FsOps.Step | ocdutils/filesystem.py:80-109 | `execute`: nothing for no operation or a no-op; a rename onto an existing path raises, a rename of a missing source raises, otherwise the entry moves; a timestamp on a missing path raises, otherwise only that path's flagged times change; a custom operation returns its function's result and changes nothing; chmod and delete raise NotImplementedError; a raise never changes anything |
| FsOps.Filesystem.Execute | ocdutils/filesystem.py:80-109 | the outcome and the new entries are those `Step` gives from the old entries |
| FsOps.RenameBack | ocdutils/filesystem.py:84-88 | renaming a file to a free name and back restores the file system |
| FsOps.SetTimestampIdempotent | ocdutils/filesystem.py:90-103 | setting the same timestamp twice has the effect of setting it once |
| FsOps.Escape | ocdutils/filesystem.py:113-116 | `escape` (backslashes doubled, then quotes backslashed) equals escaping each character on its own |
| FsOps.EscapeRoundTrip | ocdutils/filesystem.py:113-116 | reading the escaped text back, a backslash taking the next character literally, gives the original path |
| FsOps.Octal | ocdutils/filesystem.py:154-155 | `{mode:o}` is a non-empty string of octal digits |
| FsOps.OctalRoundTrip | ocdutils/filesystem.py:154-155 | the octal digits denote the mode |
| FsOps.TouchAsWrittenChangesAccessTime | ocdutils/filesystem.py:128-137 | as written (`-m` chosen by `set_atime`) a timestamp on mtime only prints `touch` with no flag, which changes both times; read as intended it changes the modification time only |
| FsOps.TouchIntendedMatchesExecute | ocdutils/filesystem.py:90-103 | with the flags read as intended, the printed `touch` changes exactly the times the real `execute` changes |
| FsOps.DirCalls | ocdutils/filesystem.py:186-191 | one walked directory gives the filter call (when there is a filter), then its directory children, then its file children |
| FsOps.StepCallsAt | ocdutils/filesystem.py:186-191 | the calls for the k-th walked directory come after those of the directories before it and before those after it |
| FsOps.TargetCalls | ocdutils/filesystem.py:182-183 | a file, or any target when not recursing, is passed to `fn` itself |
| FsOps.WalkCallsFlat | ocdutils/filesystem.py:175-183 | without recursion `fn` is called on each target once, in order |
| FsOps.WalkAndRun | ocdutils/filesystem.py:174-191 | the calls made are those `WalkCalls` lists, in order |
| FsOps.RunWalked | ocdutils/filesystem.py:186-191 | the walking branch makes the calls of every walked directory in walk order |
| FsOps.RunChildren | ocdutils/filesystem.py:190-191 | `fn` is called on `dirname / child` for each child in listing order |
| FsOps.ChildrenAt | ocdutils/filesystem.py:190-191 | the i-th child call is on the i-th listed name under the directory |
| HashClusters.HashSizeOrDefault | mediatools/backends/averagehash.py:53 | `hash_size or 8`: None and 0 give the default 8, any other size is kept |
| HashClusters.Absorbed | mediatools/backends/averagehash.py:64-78 | an absorbed outcome returns the hash when there is one and None otherwise |
| HashClusters.MapAndUpdate | mediatools/backends/averagehash.py:64-81 | the returned hashes are every image's absorbed outcome in input order; the batch fails iff some image raised; the update calls are those `UpdateCalls` lists |
| HashClusters.UpdateCallsOncePerImage | mediatools/backends/averagehash.py:75-76 | when nothing raises, `update_fn` is called once per image, in input order, with that image and its hash or None |
| HashClusters.Pairs | mediatools/backends/averagehash.py:84-88 | the zipped pairs drop the images without a hash, so there are no more of them than images |
| HashClusters.KeepShared | mediatools/backends/averagehash.py:100 | a group is kept iff it has more than one image |
| HashClusters.FindGroups | mediatools/backends/averagehash.py:103-105 | `find` returns the image lists of the duplicate groups, hashes stripped, in the same order |
| HashClusters.PairsSelect | mediatools/backends/averagehash.py:84-88 | the pairs with a given hash are, in order, the images that hashed to it |
| HashClusters.GroupedExact | mediatools/backends/averagehash.py:90-97 | each group is exactly the images with its hash, in input order |
| HashClusters.GroupedAscending | mediatools/backends/averagehash.py:90-97 | the group hashes strictly ascend |
| HashClusters.GroupedComplete | mediatools/backends/averagehash.py:90-97 | every hash some image has names a group |
| HashClusters.FindDuplicatesSpec | mediatools/similarity/imagehashcmp.py:88-106 | every returned group has at least two images, exactly those with its hash in input order; hashes strictly ascend; every hash shared by two images is present |
| HashClusters.UnhashedInNoGroup | mediatools/backends/averagehash.py:84-88 | an image whose fingerprint failed is in no group |
| HashClusters.ImagesWithHashFrom | mediatools/backends/averagehash.py:84-97 | every grouped image is an input image with that hash |
| HashClusters.ImageDuplicateFinder.constructor | mediatools/backends/averagehash.py:49-53 | the hash size is `hash_size or 8` |
| HashClusters.ImageDuplicateFinder.Find | mediatools/backends/averagehash.py:55-105 | unidentified images and OSError are absorbed as None; any other error fails the call; otherwise the duplicate groups without their hashes |
| HashClusters.FindDuplicatesCmd | mediatools/similarity/imagehashcmp.py:62-106 | only unidentified images are absorbed, OSError fails the call; otherwise the (hash, images) duplicate groups |
| Matrix.Row | mediatools/lib/generics.py:50-53 | the triples of anchor i pair it with every later element, in order, each with its score |
| Matrix.Offset | mediatools/lib/generics.py:48-53 | the position where an anchor's row starts is never negative |
| Matrix.RowsLength | mediatools/lib/generics.py:48-53 | the rows of the first m anchors hold `Offset(n, m)` triples |
| Matrix.OffsetClosedForm | mediatools/lib/generics.py:48-53 | `2 * Offset(n, m) == m * (2n - 1 - m)` |
| Matrix.ForwardLength | mediatools/lib/generics.py:48-55 | without `unfold` there are n(n-1)/2 triples, none for zero or one element |
| Matrix.OffsetMonotone | mediatools/lib/generics.py:49 | later anchors start later |
| Matrix.RowsAt | mediatools/lib/generics.py:49-53 | pair (i, j), i < j, sits at `Offset(n, i) + (j - i - 1)`, scored by `compare_fn(c[i], c[j])` |
| Matrix.ForwardHasEveryPair | mediatools/lib/generics.py:48-53 | every pair i < j appears, at its lexicographic position, with its score |
| Matrix.RowsOnlyPairs | mediatools/lib/generics.py:48-53 | every triple is some pair i < j with its score |
| Matrix.Swapped | mediatools/lib/generics.py:57 | the same triples in the same order with the first two elements exchanged and the score kept |
| Matrix.BuildMatrix | mediatools/lib/generics.py:45-59 | the forward triples, followed under `unfold` by their swapped copies |
| Matrix.MapWithProgress | mediatools/lib/generics.py:30-42 | one result per item in collection order; with a callback it is called on each item right after `map_fn` returned for it |
| Matrix.SimilarityMatrix | ocdutils/mdupes.py:84-107 | an unreadable file fails the whole call; otherwise n(n-1)/2 triples, pair i < j at its lexicographic position, scored by comparing the two histograms |
| Matrix.ScoredMatrix | ocdutils/mdupes.py:100-107 | with every file readable, the forward matrix has n(n-1)/2 triples and scores pair i < j by comparing the two histograms |
| Buckets.AsPosixPath | ocdutils/mdupes.py:27-35 | strings pass through unchanged, paths are rendered, anything else is a TypeError naming its type |
| Buckets.AsPosixPathIdempotent | ocdutils/mdupes.py:27-35 | converting the converted string again gives the same string |
| Buckets.FirstSeen | ocdutils/similarimages.py:26-32 | the keys are distinct and are exactly the keys of the elements |
| Buckets.FirstSeenPrefix | ocdutils/similarimages.py:29-30 | keys are only ever appended: those of a prefix are a prefix of the keys |
| Buckets.BucketsFor | ocdutils/similarimages.py:26-34 | one bucket per key, holding the elements with that key in input order |
| Buckets.OrderedDict.Values | ocdutils/mdupes.py:81 | `list(d.values())`: the entries in key order |
| Buckets.SelectUnseen | ocdutils/similarimages.py:29-30 | a key not seen yet has an empty bucket |
| Buckets.AddToBuckets | ocdutils/similarimages.py:28-32 | one more element appends its key if new and appends it to its own bucket, keeping every other bucket |
| Buckets.BuildHashDict | ocdutils/similarimages.py:23-34 | the dict maps each hash, in first-seen order, to its images in input order |
| Buckets.BucketsValues | ocdutils/similarimages.py:23-34 | the dict's values are the buckets in first-seen order |
| Buckets.BucketsNonEmpty | ocdutils/mdupes.py:65-81 | every returned bucket is non-empty |
| Buckets.InExactlyOneBucket | ocdutils/similarimages.py:26-32 | every element lands in exactly one bucket |
| Buckets.BucketMember | ocdutils/similarimages.py:26-32 | a bucket holds only elements with its key |
| Buckets.ImagesOf | ocdutils/mdupes.py:70-74 | a file is kept iff its MIME type starts with `image/` |
| Buckets.GroupPathsByHash | ocdutils/mdupes.py:65-81 | the groups are the buckets of the image files by hash, in order of first appearance, files in input order |
| Buckets.GroupedFiles | ocdutils/mdupes.py:70-81 | a file is in a group iff it is an image whose hash is the group's |
| Buckets.SharedGroups | ocdutils/mdupes.py:120 | a group is reported iff it has more than one file |
| Buckets.SharedBuckets | ocdutils/similarimages.py:90-94 | a result is exactly a dict entry with more than one image, tagged with its hash |
| Buckets.SimilarImages.constructor | ocdutils/similarimages.py:66-67 | the hash size is stored as given |
| Buckets.HashesOf | ocdutils/similarimages.py:90-94 | the hashes of the groups, one per group, in order |
| Buckets.SharedKeys | ocdutils/similarimages.py:90-94 | a key is kept exactly when it is one of the keys and its entry holds more than one image |
| Buckets.SharedBucketsOrdered | ocdutils/similarimages.py:90-94 | the groups' hashes, in order, are the dict's keys holding more than one image, in the dict's insertion order |
| Buckets.HashesOfAppend | ocdutils/similarimages.py:90-94 | the hashes of two group lists concatenate |
| Buckets.EntriesFor | ocdutils/similarimages.py:46-55 | the dict's keys are exactly the hashes seen |
| Buckets.SimilarImages.SearchSimilar | ocdutils/similarimages.py:69-94 | no JPEG files give []; otherwise a group is exactly a second-pass hash of two or more of the first-pass images rehashed at twice the size, with those images; and the groups' hashes, in order, are the second-pass keys holding two or more images, in first-seen order |
| Buckets.FlattenBucketsPermutes | ocdutils/similarimages.py:85-88 | chaining the buckets of all keys gives the elements back, reordered |
| Buckets.FirstPassOrderPermutes | ocdutils/similarimages.py:85-88 | the second pass rehashes every first-pass image exactly once, singletons included |
| Buckets.SecondPassMembers | ocdutils/similarimages.py:85-94 | a second-pass bucket holds exactly the JPEG files with its second-pass hash |
| Histograms.RowFrom | mediatools/backends/cv2histogram.py:70-75 | anchor i yields one triple per later image, in order, each starting with the anchor |
| Histograms.Histograms | mediatools/backends/cv2histogram.py:67 | all histograms are read first, one per image, and the call fails iff some image cannot be read |
| Histograms.CalculateCorrelations | mediatools/backends/cv2histogram.py:66-75 | an unreadable image fails the call; otherwise one triple per pair i < j in lexicographic order, the last image never an anchor |
| Histograms.Correlate | mediatools/backends/cv2histogram.py:69-75 | the outer loop yields the rows of every anchor but the last image, in order |
| Histograms.CorrelateRow | mediatools/backends/cv2histogram.py:70-75 | the inner loop appends one triple per later image, in order, scored as the indexing says |
| Histograms.Matching | mediatools/backends/cv2histogram.py:85 | the matching followers are no more than the anchor's triples |
| Histograms.GroupCorrelations | mediatools/backends/cv2histogram.py:81-92 | one group, [anchor] + matches, per run of equal anchors that has a match, in run order |
| Histograms.CalculateGroups | mediatools/backends/cv2histogram.py:78-92 | fails iff some image cannot be read; otherwise the groups of the correlation runs |
| Histograms.MatchingOfRow | mediatools/backends/cv2histogram.py:85 | the matches of an anchor's row are the followers scoring strictly above the threshold |
| Histograms.GroupRunsPrefix | mediatools/backends/cv2histogram.py:84 | a block of one anchor followed by another anchor is one `groupby` run |
| Histograms.RowList | mediatools/backends/cv2histogram.py:69-75 | every anchor's row is non-empty |
| Histograms.RunsAreRows | mediatools/backends/cv2histogram.py:84 | for distinct images `groupby` gives back exactly one run per anchor |
| Histograms.RowGroupsAreAnchorScan | mediatools/backends/cv2histogram.py:84-90 | grouping the anchor rows is the anchor-by-anchor scan |
| Histograms.GroupsAreAnchorScan | mediatools/backends/cv2histogram.py:78-92 | for distinct images, the groups are, per anchor in order, [anchor] + its strictly-above-threshold followers when it has any, never merged |
| Histograms.GroupsOfRunsCons | mediatools/backends/cv2histogram.py:84-90 | one more run adds its group, if any, in front of the later ones |
| Histograms.RunsOfRows | mediatools/backends/cv2histogram.py:84 | the anchor's row is a run of its own, before the later runs |
| Histograms.CV2Matcher.constructor | mediatools/backends/cv2histogram.py:51-55 | a threshold in [0, 1] is stored |
| Histograms.CV2Matcher.Find | mediatools/backends/cv2histogram.py:57-60 | only files with a lowercased `jpg`/`jpeg` extension are grouped, with the indexing as written; fails iff one cannot be read |
| Histograms.NewCV2Matcher | mediatools/backends/cv2histogram.py:51-55 | a threshold below 0 or above 1 raises ValueError; 0 and 1 are accepted |
| Histograms.AsWrittenComparesAnchorWithItself | mediatools/backends/cv2histogram.py:70-73 | as written, the first follower is scored with the anchor's own histogram |
| Histograms.AsWrittenIgnoresLastHistogram | mediatools/backends/cv2histogram.py:70-73 | as written, the last histogram never influences a score |
| Histograms.OffByOneExample | mediatools/backends/cv2histogram.py:70-73 | two images correlating at 0 are grouped as written and kept apart with the intended indexing |
| Histograms.OverlappingGroupsExample | mediatools/backends/cv2histogram.py:81-92 | three mutually similar images give [[a, b, c], [b, c]]: groups are not merged |
| Histograms.IntendedMembersScoreAbove | mediatools/similarity/cv2cmp.py:66-70 | with the intended indexing each member scores strictly above the threshold against its anchor |
| Histograms.Group | mediatools/similarity/cv2cmp.py:56-80 | an unreadable image fails the call; otherwise one cluster per anchor with a match, in anchor order, holding [anchor] + matches and the CRC-32 of the anchor's histogram bytes |
| Histograms.FuzzyHashes | mediatools/similarity/cv2cmp.py:75 | each fuzzy hash is the CRC-32 hex of that histogram's bytes and depends on nothing else |
| Histograms.ClustersStep | mediatools/similarity/cv2cmp.py:64-78 | one anchor's step appends its cluster, if any, before the later anchors' clusters |
| Histograms.ItemsOf | mediatools/similarity/cv2cmp.py:76 | the items of every cluster, in cluster order |
| Histograms.ClusterItemsAreAnchorGroups | mediatools/similarity/cv2cmp.py:63-80 | the clusters' items are the anchor-scan groups with each image's own histogram |
| Histograms.ItemsOfAppend | mediatools/similarity/cv2cmp.py:63-80 | the items of two cluster lists concatenate |
| Histograms.EnginesAgree | mediatools/backends/cv2histogram.py:69-75 | with the histogram index corrected, the groups of `calculate_groups` are the items of the clusters of `group` |
| Histograms.DefaultThresholdNeverClusters | mediatools/similarity/cv2cmp.py:17 | with correlations at most 1, the default threshold of 90 never forms a cluster |
| Histograms.NoFollowersAbove | mediatools/similarity/cv2cmp.py:70 | no follower scores above 90 when correlations are at most 1 |
| Histograms.FractionThresholdClusters | mediatools/similarity/cv2cmp.py:17 | with the threshold written as 0.90 a pair correlating at 0.95 clusters; with 90 it does not |
| Histograms.SimilarityExitNeverOne | mediatools/similarity/cv2cmp.py:107-108 | whenever the command exits explicitly it exits 0; the status 1 is unreachable |
| Histograms.SimilarityStatus | mediatools/similarity/cv2cmp.py:107-108 | the evident intent: 0 iff the similarity reaches the threshold, 1 iff it falls below |
| MotionPhotos.Parse | ocdutils/motionphotos.py:34-46 | the video is absent iff the marker does not occur, and the image is then the whole buffer; otherwise the image ends at the marker's first occurrence and image + marker + video is the buffer |
| MotionPhotos.Data | ocdutils/motionphotos.py:58-63 | just the image without a video; otherwise the result starts with the image |
| MotionPhotos.DataOfParse | ocdutils/motionphotos.py:34-63 | rebuilding a freshly parsed buffer gives the buffer back, with or without a marker |
| MotionPhotos.ParseOfData | ocdutils/motionphotos.py:36-43 | parsing image + marker + video gives back that image and video when the marker does not start inside the image |
| MotionPhotos.MarkerUnbordered | ocdutils/motionphotos.py:25 | no proper suffix of "MotionPhoto_Data" is also a prefix of it |
| MotionPhotos.StraddleIsBorder | ocdutils/motionphotos.py:36 | an occurrence that starts inside the image and ends in the marker exposes a border of the marker |
| MotionPhotos.ParseOfDataMarker | ocdutils/motionphotos.py:36-43 | with the real marker, an image that does not contain it comes back unchanged with the video |
| MotionPhotos.ParseOfDataStraddle | ocdutils/motionphotos.py:36-43 | with a self-overlapping marker ("aa", image "a", video "b") the round trip fails |
| MotionPhotos.MotionPhotoBytes.constructor | mediatools/motionphotos.py:47-59 | the fields are the split of the buffer at the first marker, and `data` rebuilds the buffer |
| MotionPhotos.MotionPhotoBytes.Bytes | mediatools/motionphotos.py:71-76 | `data` is image + marker + video when there is a video, otherwise the image |
| MotionPhotos.MotionPhotoBytes.InsertVideo | ocdutils/motionphotos.py:52-53 | the image is unchanged, the video is the new one, and `data` is image + marker + new video |
| MotionPhotos.MotionPhotoBytes.DropVideo | ocdutils/motionphotos.py:55-56 | the image is unchanged, there is no video, and `data` is the image |
| MotionPhotos.InsertCmd | mediatools/motionphotos.py:207-232 | a missing image raises; equal paths, a missing video, or an existing video without overwrite return 255 and change nothing; otherwise the image is rewritten as image + marker + video bytes and `--rm` then removes the video |
| MotionPhotos.ExtractCmd | mediatools/motionphotos.py:240-260 | equal paths, an image without video, or an existing target without overwrite raise and change nothing; otherwise the video bytes are written to the target and `--rm` rewrites the image as its image bytes only |
| MotionPhotos.ExtractThenInsert | mediatools/motionphotos.py:207-260 | extracting with `--rm` and inserting the video back restores the original motion photo |
| FilesystemFixes.LowercaseExtension | mediatools/filesystemfixes.py:30-31 | the parent is kept, and a name without a suffix is unchanged |
| FilesystemFixes.LowercaseExtensionShape | mediatools/filesystemfixes.py:30-31 | only the suffix changes, to its lowercase form; the stem is kept |
| FilesystemFixes.LowercaseExtensionIdempotent | mediatools/filesystemfixes.py:30-31 | lowercasing the suffix twice is lowercasing it once |
| FilesystemFixes.ReplaceExtension | mediatools/filesystemfixes.py:34-38 | the path is unchanged unless its dot-less extension is in the haystack, compared case-sensitively; then only the extension becomes `repl` |
| FilesystemFixes.PipelineSteps | mediatools/filesystemfixes.py:46-58 | the chain lowercases first, then applies the jpeg, mpeg and tif replacements in that order |
| FilesystemFixes.FoldSnoc | mediatools/filesystemfixes.py:57-58 | one more transform is applied to the result of the earlier ones |
| FilesystemFixes.SettledIsFixed | mediatools/filesystemfixes.py:46-60 | a path with a lowercase suffix and none of the long forms is left alone |
| FilesystemFixes.Lowered | mediatools/filesystemfixes.py:30-31 | after lowercasing, the parent and stem are the same and the suffix is lowercase |
| FilesystemFixes.ReplacesJpeg | mediatools/filesystemfixes.py:48 | a lowercase `jpeg` extension becomes `jpg` |
| FilesystemFixes.ReplacesMpeg | mediatools/filesystemfixes.py:49 | a lowercase `mpeg` extension becomes `mpg` |
| FilesystemFixes.ReplacesTif | mediatools/filesystemfixes.py:50 | a lowercase `tif` extension becomes `tiff` |
| FilesystemFixes.ReplacesNothing | mediatools/filesystemfixes.py:34-38 | any other extension passes the three replacements unchanged |
| FilesystemFixes.ShortForm | mediatools/filesystemfixes.py:48-50 | the short forms are lowercase and match no replacement |
| FilesystemFixes.PipelineResult | mediatools/filesystemfixes.py:46-58 | a path without a suffix is unchanged; otherwise parent and stem are kept; the result is always settled |
| FilesystemFixes.PipelineLongForm | mediatools/filesystemfixes.py:46-58 | any case of `.jpeg`, `.mpeg`, `.tif` ends as `.jpg`, `.mpg`, `.tiff`, with parent and stem kept |
| FilesystemFixes.PipelineOtherSuffix | mediatools/filesystemfixes.py:46-58 | every other suffix is only lowercased |
| FilesystemFixes.DotForms | mediatools/filesystemfixes.py:48-50 | the dotted long forms are the dot followed by the extension |
| FilesystemFixes.DotTail | mediatools/lib/filesystem.py:45-46 | stripping the leading dot of "." + e gives e |
| FilesystemFixes.FinalSuffix | mediatools/filesystemfixes.py:36 | after a replacement the new suffix is "." + repl, the stem is kept and the path is settled |
| FilesystemFixes.LowerOfLowercase | mediatools/filesystemfixes.py:31 | text without capitals is its own lowercase form |
| FilesystemFixes.PipelineIdempotent | mediatools/filesystemfixes.py:46-58 | running the chain on its own result changes nothing |
| FilesystemFixes.Changed | mediatools/filesystemfixes.py:60-63 | the changed files are no more than the files |
| FilesystemFixes.InChanged | mediatools/filesystemfixes.py:60-63 | a file is moved iff the chain changes its path |
| FilesystemFixes.ChangedSnoc | mediatools/filesystemfixes.py:53-63 | one more file adds itself to the moved files iff the chain changes it |
| FilesystemFixes.ChangedAppend | mediatools/filesystemfixes.py:53-63 | the moved files of two lists concatenate |
| FilesystemFixes.Sources | mediatools/filesystemfixes.py:65-66 | one source per attempted move |
| FilesystemFixes.MoveKeepsCount | mediatools/filesystemfixes.py:66 | moving a file to an absent path keeps the number of files |
| FilesystemFixes.ApplyAll | mediatools/filesystemfixes.py:56-58 | `dst` is the file run through every transform in order |
| FilesystemFixes.MoveResultFree | mediatools/lib/filesystem.py:221-242 | a successful `safe_mv` without overwrite moved a present file to a candidate of its destination that was free |
| FilesystemFixes.FixStepKeeps | mediatools/filesystemfixes.py:53-72 | one iteration keeps every file other than the one it moves at its path with its content |
| FilesystemFixes.FixAllKeeps | mediatools/filesystemfixes.py:53-72 | a file whose name the chain leaves as it is, or that is not walked, ends where it was with its content: fixed names are not moved and moves never overwrite |
| FilesystemFixes.FixAllCount | mediatools/filesystemfixes.py:53-72 | the number of files never changes |
| FilesystemFixes.FixExtensionsCmd | mediatools/filesystemfixes.py:45-72 | the disk and the attempts are those of `FixAll` over the files with the default chain; exactly the files the chain changes are moved, in order; every move lands on the fixed path or one of its alternatives; every file already fixed or not walked keeps its path and content; the number of files stays the same |
| FilesystemFixes.FixFiles | mediatools/filesystemfixes.py:53-72 | the disk and the attempts are those of `FixAll`; the loop attempts a move for exactly the changed files, each landing on its fixed path or an alternative, keeping the number of files |
| FilesystemFixes.FixOne | mediatools/filesystemfixes.py:56-66 | the new disk is one `FixStep`; a file the chain leaves unchanged is skipped; any other is moved to its fixed path or an alternative; the number of files is kept |
| FilesystemFixes.AllLandedSnoc | mediatools/filesystemfixes.py:53-72 | the landing property is kept as moves are added |
| FilesystemFixes.MoveOne | mediatools/filesystemfixes.py:66 | `safe_mv` without overwrite creates the parent; on success the present file moved to a free candidate of the destination and nothing else changed; on failure no file changed; the number of files is kept |
| FilesystemFixes.SourcesAppend | mediatools/filesystemfixes.py:53-72 | the sources of two attempt lists concatenate |
| Sidecars.EntriesOf | mediatools/sidecars.py:51-54 | one (group key, extension, file) triple per file, in file order |
| Sidecars.StackOf | mediatools/sidecars.py:56-61 | one group per run of equal keys, named by the run's key, holding the run's (extension, file) pairs sorted by extension |
| Sidecars.KeepExtensions | mediatools/sidecars.py:65-68 | a pair is kept iff its lowercased extension is one of the wanted ones |
| Sidecars.FilterStackMembers | mediatools/sidecars.py:64-70 | a group survives iff, restricted to the wanted extensions, it has as many pairs as there are wanted extensions; it then holds exactly the restricted pairs |
| Sidecars.UnfilteredAscending | mediatools/sidecars.py:56-61 | without a filter the groups come in strictly ascending key order |
| Sidecars.UnfilteredGroups | mediatools/sidecars.py:56-61 | each group holds exactly the entries of its key, sorted by extension |
| Sidecars.FileInGroup | mediatools/sidecars.py:50-61 | a group holds a file iff the file was given and its parent and stem form the group's key |
| Sidecars.FileHasGroup | mediatools/sidecars.py:50-61 | every given file lands in some group |
| Sidecars.FileGroupUnique | mediatools/sidecars.py:50-61 | no file lands in two groups |
| Sidecars.UnfilteredKeysDistinct | mediatools/sidecars.py:56-61 | no two groups share a key |
| Sidecars.FilteredGroups | mediatools/sidecars.py:64-73 | with a filter, each group has one pair per wanted extension, all wanted, and is the restriction of the unfiltered group of its key |
| Sidecars.ScanMultipleAppend | mediatools/sidecars.py:76-81 | `scan_multiple` over two directory lists is the concatenation of the two results |
| Sidecars.ScanCmd | mediatools/sidecars.py:104-111 | a filter of exactly one extension is refused with TypeError; otherwise the printed lines are those of every group |
| SidecarVideos.IsMimetype | ocdutils/sidecars.py:38-51 | an empty mimetype raises ValueError; an unguessable type matches nothing; a match means the guessed type starts with the requested one |
| SidecarVideos.FullTypeImpliesMajor | ocdutils/sidecars.py:48-51 | a match on "major/minor" implies a match on "major" |
| SidecarVideos.ImageIsNoVideo | ocdutils/sidecars.py:54-55 | nothing is both an image and a video |
| SidecarVideos.AsWrittenIsJustVideo | ocdutils/sidecars.py:58-71 | as written (`str(Path)` on both sides) `is_sidecar_for` holds iff the candidate is a video |
| SidecarVideos.AsWrittenAcceptsOtherNames | ocdutils/sidecars.py:62-63 | a video with another name ("a.jpg", "b.mp4") passes as written and fails once the names are compared |
| SidecarVideos.AsWrittenAgreesWithinGroup | ocdutils/sidecars.py:89-106 | inside one name group the written and the intended test agree |
| SidecarVideos.ImagesIn | ocdutils/sidecars.py:94 | the image list is no longer than the group |
| SidecarVideos.InImagesIn | ocdutils/sidecars.py:94 | a name is in the image list iff it is in the group and is an image |
| SidecarVideos.InSidecarsIn | ocdutils/sidecars.py:104-106 | a name is a listed sidecar iff it is in the group and is a video |
| SidecarVideos.Assign | ocdutils/sidecars.py:90 | `by_name[name] = group`: the name now maps to the run; a new name goes last, a known one keeps its place; keys stay distinct and match the map |
| SidecarVideos.ByNameOf | ocdutils/sidecars.py:88-90 | the dict built from all runs has distinct keys matching its entries |
| SidecarVideos.ByNameOfSnoc | ocdutils/sidecars.py:89-90 | one more run is one more assignment |
| SidecarVideos.SetOfGroup | ocdutils/sidecars.py:94-109 | a group contributes one pair iff it holds exactly one image, and none otherwise |
| SidecarVideos.BuildByName | ocdutils/sidecars.py:88-90 | the loop builds the dict `ByNameOf` describes |
| SidecarVideos.CollectSets | ocdutils/sidecars.py:92-109 | the loop collects the pairs of the single-image groups in key order |
| SidecarVideos.FindSidecarVideos | ocdutils/sidecars.py:74-111 | only the walk's first directory is processed; no directory gives None |
| SidecarVideos.SetsAreSingleImageGroups | ocdutils/sidecars.py:92-109 | every reported pair comes from one name group |
| SidecarVideos.PairOfGroup | ocdutils/sidecars.py:103-109 | a group's pair is its only image under the root, with that group's videos under the root |
| SidecarVideos.ReturningName | ocdutils/sidecars.py:89-90 | a name that comes back after another run replaces its first group but keeps its first place |
| SidecarVideos.IgnoreCaseOverwrite | ocdutils/sidecars.py:77-90 | under ignore_case, "A.jpg", "B.jpg", "a.mp4" leave only "a.mp4" under "a": sorting is case-sensitive but the key is not |
| SidecarVideos.IntendedPairsSameName | ocdutils/sidecars.py:58-71 | as meant, a candidate is an image's sidecar iff it is a video whose stem is the image's; every such pair also passes the test as written |
| FsLinter.FixedPath | ocdutils/ocdfslinter.py:45-51 | the new path keeps the parent |
| FsLinter.FixExtension | ocdutils/ocdfslinter.py:41-53 | nothing for a non-file; a rename to the normalised path iff the file's normalised path differs from it |
| FsLinter.MappedSuffix | ocdutils/ocdfslinter.py:14-18 | every replacement of `SUFFIX_MAP` is a lowercase suffix that is not itself a key |
| FsLinter.NewSuffixShape | ocdutils/ocdfslinter.py:45-49 | the new suffix is a well-formed lowercase suffix that maps to nothing further |
| FsLinter.NoSuffixFixed | ocdutils/ocdfslinter.py:51-52 | a path without a suffix is already normalised |
| FsLinter.FixedPathIdempotent | ocdutils/ocdfslinter.py:45-51 | normalising twice is normalising once |
| FsLinter.FixExtensionIdempotent | ocdutils/ocdfslinter.py:41-53 | `fix_extension` on its own result asks for no further rename |
| FsLinter.FixedSuffix | ocdutils/ocdfslinter.py:45-51 | the stem is kept and the suffix is lowercased, then `.tif`, `.jpeg`, `.mpeg4` become `.tiff`, `.jpg`, `.mp4` |
| FsLinter.Deosify | ocdutils/ocdfslinter.py:55-60 | a delete iff the path is a file named `.DS_Store` or starting with `._` |
| FsLinter.RunOne | ocdutils/ocdfslinter.py:85-90 | the outcome and entries are those of `fix_extension` then `deosify` on the original path, each decided on the state the previous one left, stopping at a raise |
| FsLinter.RenamedLitterSurvives | ocdutils/ocdfslinter.py:89-90 | a file that is renamed is gone when `deosify` looks at the original path, so `._x.JPEG` is renamed and not deleted |
| FsLinter.CleanFileUntouched | ocdutils/ocdfslinter.py:85-90 | a normalised file that is not litter is left untouched |
| FsLinter.LitterReachesDelete | ocdutils/ocdfslinter.py:89-90 | with `ocdfs.DeleteOp` read as the `DeleteOperation` it evidently names, litter with a normalised name is passed to `execute` as a delete, which raises NotImplementedError and changes nothing; as written, the undefined name raises AttributeError first (see Left out) |
| FsLinter.RemoveFirst | ocdutils/ocdfslinter.py:95 | `list.remove` drops exactly one occurrence when there is one and leaves the list alone otherwise |
| FsLinter.StripHidden | ocdutils/ocdfslinter.py:92-95 | the loop leaves the list that `Stripped` describes: a removal shifts the next name under the position the iterator then leaves |
| FsLinter.StrippedKeepsVisible | ocdutils/ocdfslinter.py:92-95 | no visible name is ever lost, and names are only dropped |
| FsLinter.Visible | ocdutils/ocdfslinter.py:92-95 | the intended result holds only visible names, each from the list |
| FsLinter.InVisible | ocdutils/ocdfslinter.py:92-95 | a name is in the intended result iff it is in the list and does not start with a dot |
| FsLinter.StripHiddenSkipsNext | ocdutils/ocdfslinter.py:93-95 | two hidden names in a row, `.a` and `.b`: the second survives as written, none as intended |
| FsLinter.Visits | ocdutils/ocdfslinter.py:68-83 | without recursion the paths are visited as given |
| FsLinter.RunAllAppend | ocdutils/ocdfslinter.py:69-83 | running over two lists of paths is running over the first, then, unless it raised, over the second |
| FsLinter.CleanRun | ocdutils/ocdfslinter.py:68-90 | a run over normalised files that are not litter changes nothing |
| FsLinter.WalkSkipsHidden | ocdutils/ocdfslinter.py:75-80 | with the intended strip, a skip-hidden walk never visits a hidden name |
| FsLinter.RunPaths | ocdutils/ocdfslinter.py:82-83 | `run_one` on each path in order, stopping at the first error |
| FsLinter.Children | ocdutils/ocdfslinter.py:75-80 | the children of a walked directory are its (stripped) directory names then file names, under it |
| FsLinter.RunWalk | ocdutils/ocdfslinter.py:74-83 | every walked directory's children are visited in walk order |
| FsLinter.Run | ocdutils/ocdfslinter.py:68-83 | each path on its own, or with `recurse` every entry of its walk, stopping at the first error |
| FsJanitor.DeOSXfyDecision | ocdutils/fsjanitor.py:131-144 | a delete iff the entry is a directory named `.DS_Store`, a `._name` file whose `name` exists beside it, or a file named `Icon\r`; nothing otherwise |
| FsJanitor.OrphanAppleDoubleKept | ocdutils/fsjanitor.py:135-141 | an AppleDouble file whose companion is gone is kept |
| FsJanitor.FixExtensionDecision | ocdutils/fsjanitor.py:147-169 | a rename iff the entry is a file whose lowercased suffix is `.jpeg`, `.mpeg` or `.tif`, to the same stem with `.jpg`, `.mpg` or `.tiff`; nothing otherwise |
| FsJanitor.RenameMoves | ocdutils/fsjanitor.py:160-166 | the mapped suffix always differs from the original, so the rename moves the file |
| FsJanitor.ShortFormsSkipped | ocdutils/fsjanitor.py:160-169 | suffixes already in short form, in any case (`.JPG` included), yield nothing |
| FsJanitor.ModeText | ocdutils/fsjanitor.py:176 | `oct(st_mode)[-3:]` is three characters |
| FsJanitor.OctalLast | ocdutils/fsjanitor.py:176 | the last octal digit is the value modulo 8, preceded by the digits of the rest |
| FsJanitor.ModeTextDigits | ocdutils/fsjanitor.py:176 | for a mode of at least 64 the text is the three octal digits of the permission bits |
| FsJanitor.PermissionBits | ocdutils/fsjanitor.py:176 | the permission bits are the three low octal digits |
| FsJanitor.ModeTextMeaning | ocdutils/fsjanitor.py:176-186 | the text reads "755" or "644" iff the permission bits are 0o755 or 0o644 |
| FsJanitor.FixPermissionsDecision | ocdutils/fsjanitor.py:172-189 | a missing entry yields nothing when it is a symlink and re-raises otherwise; chmod 755 for a directory not at 755, chmod 644 for a file not at 644, InvalidFileTypeError in every other case |
| FsJanitor.FixPermissionsCases | ocdutils/fsjanitor.py:182-189 | in permission-bit terms, an entry already right, and any other kind, raises InvalidFileTypeError |
| FsJanitor.ImageReduceDecision | ocdutils/fsjanitor.py:194-223 | a resize iff the entry is a file PIL can open whose larger side exceeds 2160 |
| FsJanitor.Process | ocdutils/fsjanitor.py:248-251 | `SubtitleExtension` never acts, and only `FixPermissions` raises |
| FsJanitor.ActionsOf | ocdutils/fsjanitor.py:107-116 | InvalidFileTypeError and None are skipped, NoopOperation is not executed; an operation is executed and a re-raised error stops the run |
| FsJanitor.PerformAppend | ocdutils/fsjanitor.py:92-116 | carrying out two lists of actions is the first, then, unless it stopped, the second |
| FsJanitor.SubtitlesOnlyDoNothing | ocdutils/fsjanitor.py:248-251 | the subtitle extension emits no action on any entry |
| FsJanitor.ActionsFromEntries | ocdutils/fsjanitor.py:100-116 | every action of a pass comes from that extension's decision on some walked entry |
| FsJanitor.App.constructor | ocdutils/fsjanitor.py:85-90 | no extensions when none are given; the file system is the one given |
| FsJanitor.App.RunEntries | ocdutils/fsjanitor.py:100-116 | the entries are processed in order and each due operation executed, stopping at the first error |
| FsJanitor.App.RunExtension | ocdutils/fsjanitor.py:96-104 | one extension over each path's walk, each directory's subdirectories before its files |
| FsJanitor.App.Run | ocdutils/fsjanitor.py:92-94 | the extensions run in the configured order, each over every path |
| FsJanitor.Select | ocdutils/fsjanitor.py:278-281 | an extension is enabled iff its flag or `--all` is set |
| FsJanitor.SelectOrdered | ocdutils/fsjanitor.py:254-281 | the enabled extensions keep the fixed order deosxfy, ext, image_reduce, perms, subtitles |
| FsJanitor.AllSelectsEverything | ocdutils/fsjanitor.py:278-281 | `--all` enables every extension, in the fixed order |
| LogConf.Attribute | mediatools/lib/log.py:100 | a level name resolves exactly for the names `logging` defines as levels, and only to one of the standard values |
| LogConf.LevelValue | mediatools/lib/log.py:98-102 | a number passes through unchanged; a name resolves as its upper-cased form does |
| LogConf.StandardLevels | mediatools/lib/log.py:107-108 | the five names tried are DEBUG..CRITICAL, at levels 10..50, ten apart |
| LogConf.FirstNamed | mediatools/lib/log.py:107-109 | the index found is the first name whose level is the value; none found means no name has it |
| LogConf.LevelName | mediatools/lib/log.py:105-111 | success gives a standard name with the same level as the input; an unknown name and a non-standard number are the two errors, each exactly when it happens |
| LogConf.NameRoundTrip | mediatools/lib/log.py:105-111 | a standard level, given as its number or as its name in any case, is named back by its standard name |
| LogConf.Put | mediatools/lib/log.py:133 | storing in a dict gives the value under the key and leaves the other entries |
| LogConf.PutValid | mediatools/lib/log.py:133 | storing keeps the insertion-ordered keys and the contents consistent |
| LogConf.Component | mediatools/lib/log.py:121-125 | a component without a colon names the root `*`; otherwise name and level rejoin to the component, the name holding no colon |
| LogConf.ParseValid | mediatools/lib/log.py:114-133 | the parsed dict is well formed |
| LogConf.ParseLogStr | mediatools/lib/log.py:114-119 | an empty string gives an empty dict and no warnings; otherwise the comma-separated components are parsed |
| LogConf.ParseNames | mediatools/lib/log.py:119-133 | a logger is in the parsed dict iff some component sets it to a known level |
| LogConf.ParseLastWins | mediatools/lib/log.py:119-133 | a logger gets the level of the last component that sets it |
| LogConf.ParseUnknown | mediatools/lib/log.py:128-131 | a component with an unknown level is warned about, as its name and lower-cased level, and no other component is |
| LogConf.Settings | mediatools/lib/log.py:119-131 | the generator classifies every component, one setting per component, in order |
| LogConf.CollectValid | mediatools/lib/log.py:133 | building the dict from the yielded pairs keeps it well formed |
| LogConf.CollectNames | mediatools/lib/log.py:133 | the built dict holds exactly the names some yielded pair carries |
| LogConf.CollectLastWins | mediatools/lib/log.py:133 | a name holds the value of the last pair yielded for it |
| LogConf.CollectUnknown | mediatools/lib/log.py:130-131 | exactly the unknown settings are warned about, as (name, level) |
| LogConf.LevelsIgnoreCase | mediatools/lib/log.py:100 | level names that agree when lower-cased resolve to the same level |
| LogConf.GetLogger | mediatools/lib/log.py:145 | a named logger keeps its name |
| LogConf.Parent | mediatools/lib/log.py:146 | the logger a dotted name hangs from is strictly shorter, so walking up ends |
| LogConf.Effective | mediatools/lib/log.py:146 | a logger with a level of its own has that level as its effective level |
| LogConf.Clamp | mediatools/lib/log.py:147-149 | the result is between DEBUG and CRITICAL; a level inside stays, one below becomes DEBUG, one above CRITICAL |
| LogConf.Chosen | mediatools/lib/log.py:73-78 | the configuration applied is well formed, whether it is the environment's or the argument |
| LogConf.ApplyFails | mediatools/lib/log.py:91-93 | applying a configuration fails iff some key's level name is unknown |
| LogConf.ApplyKeepsOthers | mediatools/lib/log.py:91-93 | a logger no key names keeps its level |
| LogConf.ApplyLastWins | mediatools/lib/log.py:91-93 | on success, a key that no later key shares a logger with leaves its level on that logger |
| LogConf.ApplyStops | mediatools/lib/log.py:91-93 | once a key fails, the keys after it are not looked at |
| LogConf.Logging.constructor | mediatools/lib/log.py:24 | a fresh interpreter: nothing infected, no handlers, the root logger at WARNING |
| LogConf.Logging.Infect | mediatools/lib/log.py:67-95 | a second call changes nothing; a first call adds one handler, applies the chosen configuration, and marks the module infected iff every level name resolved |
| LogConf.Logging.SetupLogLevel | mediatools/lib/log.py:136-150 | the named logger, or the root package's, is set to its effective level moved ten per quiet and verbose step and clamped; nothing else changes |
| LogConf.SetupEffective | mediatools/lib/log.py:146-150 | after the call the logger's effective level is the clamped value; with equal quiet and verbose an in-range level stays |
| LogConf.SetupMonotone | mediatools/lib/log.py:146-149 | more quiet never lowers the resulting level, more verbose never raises it |
| HotGlue.HooksOf | mediatools/lib/hotglue.py:54-55 | an event never registered has no hooks |
| HotGlue.Registered | mediatools/lib/hotglue.py:57-58 | the new hook goes last in its event's list; every other event's hooks are unchanged |
| HotGlue.Firing | mediatools/lib/hotglue.py:67-69 | one call per hook of the event, in registration order, each with the same arguments |
| HotGlue.RegisterThenFire | mediatools/lib/hotglue.py:57-69 | registering adds exactly one call, at the end, to its event's firing and changes no other event's |
| HotGlue.RegisterAllThenFire | mediatools/lib/hotglue.py:57-69 | hooks registered in turn for a new event fire in registration order |
| HotGlue.RegisterAllHooks | mediatools/lib/hotglue.py:57-58 | registering several hooks appends them, in order, to the event's list |
| HotGlue.HookHub.constructor | mediatools/lib/hotglue.py:51-52 | a new hub has no hooks |
| HotGlue.HookHub.RegisterHook | mediatools/lib/hotglue.py:57-59 | the table becomes the registered table |
| HotGlue.HookHub.Decorate | mediatools/lib/hotglue.py:61-65 | the decorated function is registered and the decorated name is bound to None |
| HotGlue.HookHub.Fire | mediatools/lib/hotglue.py:67-69 | the calls made are the event's firing |
| HotGlue.RegisterName | mediatools/lib/hotglue.py:84-88 | registration fails iff the name is already taken; otherwise the name now holds the object and nothing else changes |
| HotGlue.SecondRegistrationRefused | mediatools/lib/hotglue.py:84-88 | a second registration of a name is refused and the first object stays |
| HotGlue.IfacesHub.constructor | mediatools/lib/hotglue.py:81-82 | a new hub is empty |
| HotGlue.IfacesHub.Register | mediatools/lib/hotglue.py:84-88 | the outcome and the new table are those of the pure registration |
| HotGlue.RegisterPlugin | mediatools/lib/hotglue.py:102-106 | an interface's table is created on first use; registration fails iff the name is taken within that interface; other interfaces are untouched |
| HotGlue.PluginNamespaces | mediatools/lib/hotglue.py:102-106 | a name can go under two interfaces but not twice under one |
| HotGlue.PluginHub.constructor | mediatools/lib/hotglue.py:99-100 | a new hub has no interfaces |
| HotGlue.PluginHub.Register | mediatools/lib/hotglue.py:102-106 | the outcome and the new table are those of the pure registration |
| HotGlue.LoadStep | mediatools/lib/hotglue.py:122-140 | an unregistered name raises and changes nothing; an import is tried iff the entry is a module string; a success records the module, which later lookups return; only the named entry changes |
| HotGlue.GetCaches | mediatools/lib/hotglue.py:122-138 | after a successful `get`, the next returns the same module without importing |
| HotGlue.GetFailureSticks | mediatools/lib/hotglue.py:126-135 | after a failed import, every later `get` raises without importing again |
| HotGlue.HotLoader.constructor | mediatools/lib/hotglue.py:116-117 | a new loader has nothing registered |
| HotGlue.HotLoader.Register | mediatools/lib/hotglue.py:119-120 | the name now holds the module string, whatever it held before |
| HotGlue.HotLoader.Get | mediatools/lib/hotglue.py:122-140 | the result and the new table are those of the pure step |
| Cache.FilePath | mediatools/lib/cache.py:34-36 | a key's file is named by its digest plus `.bin`, two directory levels down, under the first character and the first two characters of the digest |
| Cache.FilePathInjective | mediatools/lib/cache.py:34-36 | different digests are kept in different files |
| Cache.Lookup | mediatools/lib/cache.py:38-47 | a value comes back iff the key's file exists and holds the key's digest; every failure is a miss for that key |
| Cache.Store | mediatools/lib/cache.py:49-61 | after storing, the key's file exists and no other file appears |
| Cache.StoreThenLookup | mediatools/lib/cache.py:38-61 | a `set` followed by a `get` of the same key gives back the value |
| Cache.StoreOverwrites | mediatools/lib/cache.py:49-61 | a second `set` of a key replaces the first entirely |
| Cache.StoreKeepsOthers | mediatools/lib/cache.py:53-59 | a `set` keeps every other key's lookup and every other digest in the same file |
| Cache.NeverSetMisses | mediatools/lib/cache.py:38-61 | on a cache that starts empty, a key never set misses whatever else was set |
| Cache.CacheDir.constructor | mediatools/lib/cache.py:28-29 | the cache is rooted at the given directory, with the given files |
| Cache.CacheDir.Get | mediatools/lib/cache.py:38-47 | the result is the lookup of the current files |
| Cache.CacheDir.Set | mediatools/lib/cache.py:49-61 | the files become those after storing the value |
| DtNamer.DirectivesListed | ocdutils/dtnamer.py:163-183 | the directives a format may use are exactly the eight the table lists |
| DtNamer.ValidateFormat | ocdutils/dtnamer.py:190-205 | the loop's verdict is the scan's: a lone trailing `%` or an unknown `%c` is refused, with that pair |
| DtNamer.Tokenize | ocdutils/dtnamer.py:190-205 | an accepted format splits into plain characters, `%%` and `%`-directive tokens that rejoin to it |
| DtNamer.TokensAccepted | ocdutils/dtnamer.py:190-205 | every string made of such tokens is accepted, so acceptance is exactly being made of tokens |
| DtNamer.TrailingRefused | ocdutils/dtnamer.py:193-197 | an accepted format followed by a lone `%` is refused as trailing |
| DtNamer.UnknownRefused | ocdutils/dtnamer.py:199-200 | after an accepted prefix, `%` and a character that is neither `%` nor a directive is refused, naming that pair |
| DtNamer.Group | ocdutils/dtnamer.py:185-188 | a directive's named group starts with `(` and holds no `%` |
| DtNamer.RegexifyFmt | ocdutils/dtnamer.py:207-213 | a refused format gives the validation error; an accepted one has each directive replaced by its group, in table order |
| DtNamer.NoDirectiveAfterGroup | ocdutils/dtnamer.py:210-211 | a replacement cannot match inside a group already inserted |
| DtNamer.ReplaceKeepsAll | ocdutils/dtnamer.py:210-211 | the remaining replacements leave a string starting with `%` and a group unchanged |
| DtNamer.EscapedPercentRewritten | ocdutils/dtnamer.py:207-213 | `%%d` is accepted, yet the replacement turns it into `%` and a day group |
| DtNamer.EscapedDirective | ocdutils/dtnamer.py:211 | replacing `%c` in `%%c` rewrites its last two characters |
| DtNamer.EscapedPercentKept | ocdutils/dtnamer.py:207-213 | read token by token, `%%d` becomes the literal `%d` that a formatted name holds |
| DtNamer.ValidateConcat | ocdutils/dtnamer.py:190-205 | two formats `validate_format` accepts, joined, are accepted too |
| DtNamer.RegexifyTokensConcat | ocdutils/dtnamer.py:207-213 | token-wise replacement of two accepted formats joined is the join of their replacements |
| DtNamer.PlainFormat | ocdutils/dtnamer.py:207-213 | a format without `%` is accepted and is its own pattern |
| DtNamer.DigitRun | ocdutils/dtnamer.py:241 | the count is the length of the leading run of digits |
| DtNamer.Decimal | ocdutils/dtnamer.py:243 | the decimal form of a counter is a non-empty string of digits |
| DtNamer.DecimalRoundTrip | ocdutils/dtnamer.py:243 | reading a counter's decimal form gives the counter back |
| DtNamer.LeadingZeros | ocdutils/dtnamer.py:243 | leading zeros do not change a decimal value |
| DtNamer.AllZeros | ocdutils/dtnamer.py:243 | a string of zeros reads as zero |
| DtNamer.PadLeft | ocdutils/dtnamer.py:243 | the string right-aligned in the width, filled on the left, never shortened |
| DtNamer.ZeroPaddedIndex | ocdutils/dtnamer.py:241-243 | `%0<w>i` writes digits, at least `w` of them, that read back as the counter |
| DtNamer.IndexFormatPlain | ocdutils/dtnamer.py:241-243 | a format without `%` carries no index and is unchanged |
| DtNamer.NewPath | ocdutils/dtnamer.py:244-247 | the new name stays in the file's directory |
| DtNamer.NameHandler.constructor | ocdutils/dtnamer.py:156-162 | the handler keeps the format and starts counting at 1 |
| DtNamer.NameHandler.Set | ocdutils/dtnamer.py:240-249 | each call uses the current index and moves it on by one; a rename to the new name is returned iff the name changes |
| DtNamer.ShiftsDay | ocdutils/dtnamer.py:75-77 | as intended, a day is added iff the text holds ` 24:`; as written, iff ` 24:` is not at the very start |
| DtNamer.TagTime | ocdutils/dtnamer.py:59-82 | a tag is absent from the result iff it is absent from the EXIF data |
| DtNamer.Resolve | ocdutils/dtnamer.py:84-93 | no date is an error; two different dates are a mismatch, and only they are; otherwise the digitized date when present, else the original |
| DtNamer.ExifGet | ocdutils/dtnamer.py:53-56 | a file without readable EXIF is an invalid file type |
| DtNamer.ExifHandlerGet | ocdutils/dtnamer.py:45-93 | the loop over the tag table gives the same result as reading the original tag, then the digitized one, then resolving |
| DtNamer.OrdinaryTagShiftedAsWritten | ocdutils/dtnamer.py:75-77 | as written, an ordinary timestamp without an offset moves one day on; as intended it stays |
| DtNamer.Hour24Intended | ocdutils/dtnamer.py:72-80 | as intended, the hour 24 is rewritten to 00 and a day is added exactly for texts holding ` 24:` |
| DtNamer.ReadingsAgreeOnHour24 | ocdutils/dtnamer.py:75-77 | both readings add the day when ` 24:` follows the date, where EXIF puts the hour |
| DtNamer.ExtractSubarguments | ocdutils/dtnamer.py:329-333 | no more pairs than options |
| DtNamer.ExtractMeaning | ocdutils/dtnamer.py:329-333 | a pair `(k, v)` comes out iff an option `name_k` is set to `v` |
| MetadataHandlers.BackendTable | ocdutils/metadata/handlers.py:73-79 | the JPEG backend exactly for `jpeg` and `jpg`, the video backend exactly for `m4v`, `mov` and `mp4`, none otherwise |
| MetadataHandlers.ExifHandler | ocdutils/metadata/handlers.py:72-87 | a handler for the file iff its lower-cased suffix without the dot has a backend, else a missing-backend error for the path; the JPEG backend keeps the options it was given |
| MetadataHandlers.ExifHandlerByKey | ocdutils/metadata/handlers.py:81-84 | the handler depends on the path only through its lower-cased extension, so extensions that differ only in case get the same kind of backend |
| MetadataHandlers.Factory | ocdutils/metadata/handlers.py:206-212 | `exif` gives the EXIF handler, `stat` the stat handler, and exactly the other names are refused |
| MetadataHandlers.GetDt | ocdutils/metadata/handlers.py:103-118 | as intended a missing tag is no date; as written a missing tag is an attribute error |
| MetadataHandlers.ResolveDates | ocdutils/metadata/handlers.py:134-147 | no date is an error; dates that differ, one missing included, are a mismatch iff the mismatch is not ignored; the original date is preferred |
| MetadataHandlers.JpegGet | ocdutils/metadata/handlers.py:102-146 | a file `piexif` cannot load is a read error; otherwise the first failed read of the original or the digitized date is the error, and when both reads succeed the result is their resolution by `ResolveDates` |
| MetadataHandlers.MissingTagFailsAsWritten | ocdutils/metadata/handlers.py:104-106 | as written, a file without the original tag fails with an attribute error, whatever else it holds |
| MetadataHandlers.MissingTagIntended | ocdutils/metadata/handlers.py:104-106 | as intended, a file with only a digitized date gives that date when the mismatch is ignored and a mismatch otherwise |
| MetadataHandlers.Hour24FailsAsWritten | ocdutils/metadata/handlers.py:108-112 | as written, a date with hour 24 reaches the parser unchanged, so a parser that refuses it fails before the fix |
| MetadataHandlers.Hour24Intended | ocdutils/metadata/handlers.py:108-112 | as intended, hour 24 is read as 00 of the next day |
| MetadataHandlers.OffsetFailsAsWritten | ocdutils/metadata/handlers.py:114-116 | as written, any non-empty offset tag fails, its text being passed as seconds |
| MetadataHandlers.OffsetIntended | ocdutils/metadata/handlers.py:114-116 | as intended, an offset that reads as a number of seconds is added to the date |
| MetadataHandlers.Written | ocdutils/metadata/handlers.py:165-177 | the section written holds the old tags and the digitized date, plus the original date when asked |
| MetadataHandlers.WrittenTags | ocdutils/metadata/handlers.py:165-177 | the digitized date is stamped, the original only when asked, the offsets are dropped and every other tag is kept |
| MetadataHandlers.JpegSet | ocdutils/metadata/handlers.py:149-179 | no EXIF metadata is an error before anything is read; an unreadable file is a read error; otherwise the loaded data with its `Exif` section, created if missing, rewritten |
| MetadataHandlers.SetThenGet | ocdutils/metadata/handlers.py:102-179 | with the original overwritten, reading back what `set` wrote gives the date set, on either reading |
| MetadataHandlers.StatGet | ocdutils/metadata/handlers.py:187-196 | a missing file is an error, and only it is; otherwise stat metadata holding the file's times and no EXIF part |
| MetadataHandlers.StatSet | ocdutils/metadata/handlers.py:198-203 | no stat metadata and a missing file are errors; otherwise only that file's times change |
| MetadataHandlers.StatSetThenGet | ocdutils/metadata/handlers.py:187-203 | reading back after `set` gives the access and modify times set, and as `st_ctime` the time of the `os.utime` call (POSIX status-change time), not the creation time passed in |
| MetadataHandlers.StatSetIgnoresCreation | ocdutils/metadata/handlers.py:200-203 | the creation time given to `set` changes nothing |
| MetadataHandlers.HandlerGet | ocdutils/metadata/handlers.py:182-196 | the video backend has no `get`; the stat handler reads the stat times; the JPEG handler succeeds iff its read does, with that date as the EXIF part |
| Transcripts.StarMatchesAll | mediatools/audiogrep.py:77-79 | the pattern `*` matches every text |
| Transcripts.LeadingStar | mediatools/audiogrep.py:77-79 | a pattern starting with `*` matches a text iff the rest of the pattern matches some suffix of it |
| Transcripts.LiteralThenStar | mediatools/audiogrep.py:77-79 | a literal pattern followed by `*` matches exactly the texts that start with the literal |
| Transcripts.WrappedMatchesContaining | mediatools/audiogrep.py:77-79 | `*p*` with a literal `p` matches exactly the texts that contain `p` |
| Transcripts.Hits | mediatools/audiogrep.py:76-80 | no more hits than segments |
| Transcripts.Hit | mediatools/audiogrep.py:78-80 | a segment gives at most one hit |
| Transcripts.HitsMeaning | mediatools/audiogrep.py:76-80 | a (start, text) pair is yielded iff some segment with that start and text matches `*pattern*` |
| Transcripts.HitsAppend | mediatools/audiogrep.py:78-80 | hits keep segment order: those of a later part follow those of an earlier one |
| Transcripts.FileHandle.constructor | mediatools/audiogrep.py:53 | a file opened for reading is at position 0 |
| Transcripts.FileHandle.Tell | mediatools/audiogrep.py:41 | the current position |
| Transcripts.FileHandle.Seek | mediatools/audiogrep.py:42 | the position becomes the one asked for |
| Transcripts.FileHandle.Read | mediatools/audiogrep.py:43 | everything from the position on, the position moving to the end; nothing at or past the end |
| Transcripts.Checksum | mediatools/audiogrep.py:38-47 | the digest of the whole file, whatever the position was, and the position is put back |
| Transcripts.CacheFile | mediatools/audiogrep.py:56 | the cache file is named by the digest, under its first character and its first two characters |
| Transcripts.Sidecar | mediatools/audiogrep.py:57 | the `.srt` sidecar sits beside the media file and its name has a dot |
| Transcripts.CacheIsNotSidecar | mediatools/audiogrep.py:56-57 | the cache file is never the sidecar |
| Transcripts.Lookup | mediatools/audiogrep.py:59-71 | the cache file when it exists, else the sidecar when it exists, else a fresh transcription; only the last writes anything, and only to the cache |
| Transcripts.Store.constructor | mediatools/audiogrep.py:59-71 | the store holds the given files |
| Transcripts.Store.Grep | mediatools/audiogrep.py:50-73 | the hits and the files afterwards are those of the pure search |
| Transcripts.GrepPrefersCache | mediatools/audiogrep.py:59-61 | with a cache file, its transcription is searched and nothing is written |
| Transcripts.GrepFallsBackToSidecar | mediatools/audiogrep.py:63-65 | without a cache file, the sidecar is searched and nothing is written |
| Transcripts.GrepTranscribes | mediatools/audiogrep.py:67-71 | with neither, the file is transcribed with the backend asked for, searched, and the cache alone is written |
| Transcripts.BackendOnlyForFresh | mediatools/audiogrep.py:59-69 | the backend matters only when the file has to be transcribed |
| Transcripts.GrepTwiceStable | mediatools/audiogrep.py:50-73 | a second search of the same file finds the same hits and writes nothing |
| Transcripts.TranscribeOne | mediatools/audio.py:188-206 | a sidecar is written iff it is missing or overwriting is asked, and the file's MIME type is audio or video; it holds the file's transcription; a skipped file leaves the files unchanged |
| Transcripts.TranscribeAll | mediatools/audio.py:185-206 | no file disappears |
| Transcripts.ExistingSidecarSkipsMime | mediatools/audio.py:189-193 | without overwriting, an existing sidecar is reported before the MIME type is looked at |
| Transcripts.NoOverwriteKeepsFiles | mediatools/audio.py:189-191 | without overwriting, every file that existed keeps its content |
| Transcripts.MediaGetSidecars | mediatools/audio.py:185-206 | afterwards every media file given has a sidecar |
| Transcripts.OnlySidecarsWritten | mediatools/audio.py:185-206 | every file written or changed is the sidecar of a media file given, holding its transcription |
| Transcripts.TranscribeAllSnoc | mediatools/audio.py:185-206 | processing one more target is one more step, with its notice appended |
| Transcripts.TranscribeCmd | mediatools/audio.py:178-206 | the files afterwards and the notices printed are those of processing the targets in order |
| Seqs.SortBy | mediatools/backends/averagehash.py:91 | `sorted` by a key returns a permutation of its input |
| Seqs.SortBySorted | mediatools/backends/averagehash.py:91 | the result is ordered by the key, as Python compares strings |
| Seqs.SelectSortBy | mediatools/backends/averagehash.py:91 | the sort is stable: the elements of each key keep their input order |
| Seqs.GroupRuns | mediatools/backends/averagehash.py:94-97 | `groupby` splits its input into non-empty maximal runs of equal keys that rejoin to the input |
| Seqs.GroupRunsOfSorted | mediatools/backends/averagehash.py:91-97 | on sorted input each run is every element of its key, and the runs' keys strictly increase |

## Left out

- The thread pool of the hash and histogram engines is modelled as an in-order sequential map. Concurrency, and the order in which progress calls happen under it, are not modelled.
- Image decoding, average hashing, histogram computation and `cv2.compareHist` are oracle parameters. No pixel arithmetic and no floating point is modelled; scores are exact reals.
- `find_duplicates_cmd` and `unroll_target_files` in `mediatools/imagehashcmp.py` (lines 109-172) are command-line glue and are not modelled. `FindDuplicatesCmd` covers the part that computes.
- Python's `str.lower` and `str.upper` are modelled on ASCII letters only. Unicode case mapping is not modelled.
- `fnmatch` character classes (`[...]`) are not modelled. Patterns are built from `*`, `?` and literal characters.
- The JSON and SubRip codecs of the transcripts are not modelled. Files hold transcriptions as values.
- Pickling in the on-disk cache is the identity. `os.makedirs` is not modelled, because directories exist implicitly in the path map.
- The stat cloning and temporary file of `transcribe_cmd` are not modelled. The sidecar is written in one step.
- DtNamer.TagTime: an `ascii` decode error on a tag's bytes is not modelled, because tags are held as text.
- `mediatools/audio.py` imports `sha1_digest` from `lib/hashing.py`, which does not define it. As written, the whole module fails to import, `transcribe_cmd` included. The model gives both `grep` functions the checksum of `audiogrep.py`.
- The video backend of the metadata handlers is modelled only as far as its missing `get`. `write_exif_tag` in `dtnamer.py` is not modelled.
- `NameHandler.get`, `MtimeHandler` and the handler lookup of `dtnamer.py` are not modelled. The regular-expression search they rely on has no counterpart here.
- The logging formatter and its colour table are not modelled. Nor are `warnings.warn` output beyond the list of reported components, or empty components of dotted logger names.
- HotGlue.HookHub.RegisterHook: the `print` of each registration is not modelled. `BackendDefer` and `BackendFactory` are not modelled: they rest on dynamic import and environment variables.
- FsOps: the dry-run filesystem is modelled for `touch` (the subject of a finding) and as the command text of each operation. The `CustomOperation` function's own effects are an opaque call trace.
- FsLinter.Run: the walk is a fixed list of steps. Removing hidden directory names in place also stops `os.walk` from descending into them, and that pruning is not modelled.
- Directory walks and `filter_fn` are given as the list of entries they yield. The lazy snapshot behaviour of `os.walk`, which sees changes made during the walk, is not modelled.
- FsJanitor.ImageReduceDecision: the width and height floats of the resize arguments are left out, and so is the division by a zero height.
- FsJanitor.App: the janitor works on a fixed view of the entries. Shadowing of the default filesystem argument and the unused `container` argument are not modelled.
- `Paths`: `parent / ""` and hidden files with an empty name are not modelled.
- Sidecars.StackOf: each group is sorted on the extension alone, not on the (extension, file) pair. Within one group the key and the extension determine the file, so two pairs never tie with different files.
- Candidates: the endless `posible_filenames` generator is cut to the destination and one alternative per supplied token. When every one of them exists, `Disk.FirstUsable` reports `CandidatesExhausted`, an error the source cannot produce, because its loop draws fresh random names until one is free.
- Disk.FileSystem.SafeCopyOrMove: the `MEDIATOOLS_DRY_RUN` mode of the library is not modelled. Under it the library prints `mkdir`, `cp` and `mv` commands instead of acting, and `clone_stat` and `clone_exif` print too. The model always acts.
- DtNamer.IndexFormat: only the `%<digits>i` rewrite is modelled. `dtnamer.py` applies `str.format` to the whole rewritten format, so any other `{` or `}` in a user format raises KeyError, IndexError or ValueError, and that is not modelled.
- FsLinter.Deosify, FsLinter.LitterReachesDelete: `ocdfslinter.py` (lines 57 and 60) constructs `ocdfs.DeleteOp`, which the operations module does not define; its class is `DeleteOperation`. As written, both branches raise AttributeError before any operation exists. The model substitutes the evident `DeleteOperation`.
- FsJanitor.FixExtensionDecision: `fsjanitor.py` (line 169) constructs `filesystem.RenameOp`, which is not defined; the class is `RenameOperation`. As written, every rename decision raises AttributeError. The model substitutes the evident `RenameOperation`.
- MetadataHandlers.StatSetThenGet: `st_ctime` is modelled with its POSIX meaning, the status-change time, which `os.utime` sets to the time of the call. On Windows `st_ctime` is the creation time, which `os.utime` leaves alone; that reading is not modelled.
- LogConf.Attribute: a level named `BASIC_FORMAT` (in any case) resolves to a string attribute of `logging`, and `setLevel` then raises TypeError. The model treats it as a missing name.
- `find_for_file` in `mediatools/sidecars.py` is not modelled: it is a dictionary lookup over the result of `_match` for one directory's files.

## Findings

| source | as written | input that shows it | evidently intended | confidence | as-written member | corrected member |
|---|---|---|---|---|---|---|
| mediatools/backends/cv2histogram.py:70-73 | the follower's histogram is taken at `idx1 + idx2`, an offset into the slice added to the anchor's index | two images whose histograms correlate at 0 are grouped, because the first follower is scored against the anchor's own histogram | compare the anchor with `histograms[idx1 + idx2 + 1]`, the follower itself | high, not executed | Histograms.OffByOneExample | Histograms.EnginesAgree |
| mediatools/similarity/cv2cmp.py:17 | the default threshold is 90 while correlations are at most 1 | two images correlating at 0.95 with the default threshold: no cluster | a threshold of 0.90 | high, not executed | Histograms.DefaultThresholdNeverClusters | Histograms.FractionThresholdClusters |
| mediatools/similarity/cv2cmp.py:107-108 | `sys.exit(0 if val >= threshold else 1)` sits under `if threshold <= val` | any similarity below the threshold: the command falls through with no explicit status and never exits 1 | exit 0 when the similarity reaches the threshold and 1 otherwise | high, not executed | Histograms.SimilarityExitNeverOne | Histograms.SimilarityStatus |
| ocdutils/sidecars.py:62-63 | both sides of the name comparison are `str(Path)`, the class itself | image `a.jpg`, candidate `b.mp4`: accepted as a sidecar | compare the stems of `image` and `candidate` | high, not executed | SidecarVideos.AsWrittenAcceptsOtherNames | SidecarVideos.IntendedPairsSameName |
| ocdutils/filesystem.py:133 | the `-m` flag of the dry-run `touch` is chosen by `set_atime` | a timestamp operation with `set_mtime` and without `set_atime`: the printed command has no flag and so changes both times, while execution changes only the modification time | `-m` chosen by `set_mtime`, as the real execution does | high, not executed | FsOps.TouchAsWrittenChangesAccessTime | FsOps.TouchIntendedMatchesExecute |
| ocdutils/ocdfslinter.py:92-95 | `_strip_hidden` removes from the list it is iterating over | `[".a", ".b"]`: `.b` is skipped and stays | drop every name starting with a dot | high, not executed | FsLinter.StripHiddenSkipsNext | FsLinter.WalkSkipsHidden |
| ocdutils/dtnamer.py:75-77 | `dt.find(' 24:')` is used as a truth value | an ordinary timestamp such as `2020:01:01 12:00:00`: `find` gives -1, which is true, so a day is added | apply the hour-24 fix only when ` 24:` occurs | high, not executed | DtNamer.OrdinaryTagShiftedAsWritten | DtNamer.Hour24Intended |
| ocdutils/dtnamer.py:207-213 | `%%` is accepted by `validate_format` but `str.replace` still rewrites the `%d` inside `%%d` | format `%%d`: the pattern becomes `%` and a day group | keep `%%` as a literal percent sign | medium, not executed | DtNamer.EscapedPercentRewritten | DtNamer.EscapedPercentKept |
| ocdutils/metadata/handlers.py:104-106 | `.decode` is called on the result of `.get` before the `None` check | a JPEG with only a digitized date: AttributeError | a missing tag is no date | high, not executed | MetadataHandlers.MissingTagFailsAsWritten | MetadataHandlers.MissingTagIntended |
| ocdutils/metadata/handlers.py:108-112 | the text is parsed before the hour-24 fix is applied | `2020:01:01 24:00:00`: `strptime` refuses it and the fix is never reached | rewrite hour 24 to 00 of the next day before parsing | high, not executed | MetadataHandlers.Hour24FailsAsWritten | MetadataHandlers.Hour24Intended |
| ocdutils/metadata/handlers.py:114-116 | the offset text is passed to `timedelta` as a string | any non-empty offset tag: TypeError | add the offset read as a number of seconds | high, not executed | MetadataHandlers.OffsetFailsAsWritten | MetadataHandlers.OffsetIntended |

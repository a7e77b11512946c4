# Wav clustering: a verified model of the cluster resolver and the file materializers

The repository groups short audio samples (drum hits) by acoustic similarity.
It extracts short-term features from each wav file and flattens their first
frames into one vector per sample. It builds a Ward merge tree over those
vectors and cuts the tree into a requested number of flat clusters. Then it
lays the result out on disk: one directory per cluster, plus a set of
numbered copies in dendrogram leaf order.

This project models the sequential core of those steps and proves properties
of the model:

- `bisection.dfy` (module `Bisection`) models `get_fclusters`. It is the
  bisection over the distance threshold that looks for a cut with the
  target number of clusters. It is a method with the source's `while` loop,
  specified by the function `After`, which gives the search interval after
  `k` probes that all missed.
- `materializer.dfy` (module `Materializer`) models `save_clusters_into_dirs`.
  This covers the forward and reverse leaf-order maps, the map from sample
  index to listed file, and the copies into the `cluster_NNNN` directories.
  It is a method with the source's two nested loops, specified by the
  function `Distribute` over the copy order `CopyOrder`.
- `workflow.dfy` (module `Workflow`) models four parts of the workflow:
  - `flatten_n_frames`;
  - the name a sample is filed under;
  - the `feature_dict` loop of `get_features_frame`, which skips samples
    whose extraction fails;
  - `save_ordered_wav_copies`, which writes the manifest and makes the
    numbered copies.
- `text.dfy` (module `Text`) models Python's `str` of an integer and
  `str.zfill`, and reads digit strings back to their value.
- `paths.dfy` (module `Paths`) models `str.split('/')`, `'/'.join` and
  POSIX `os.path.join` of two components.
- `wrappers.dfy` (module `Wrappers`) holds the `Option` and `Result` types.

Each Python exception the core can raise is a `Failure` value:
- `ClusterError`: too many clusters, an empty linkage, or no iterations;
- `MaterializeError`: a listing position missing from the leaf order, an
  empty membership vector, or a clustered sample with no file;
- `NamingError`: a path with no parent directory.

Functions of the outside world are parameters:
- scipy's `fcluster` is `cut: real -> seq<int>`;
- `leaves_list` is the sequence `ll`;
- the sorted `glob` listing is `files`;
- pyAudioAnalysis feature extraction is `extract: string -> Option<Features>`.

Filesystem effects are returned as values:
- a copy is `Copy(source, destination)`;
- the cluster directories `os.makedirs` makes sure exist are returned
  as a list of paths, one per label, including labels no sample carries;
- the manifest is its path plus the list of lines written to it.

Behaviour of the code worth knowing, which the model follows:
- `get_fclusters` rejects a target above `Z.shape[0]`, the number of merge
  rows, which is N - 1 for N samples. So a target of N, which would be the
  all-singletons cut, is rejected with `TooManyClusters`, although the
  error message speaks of "more clusters than datapoints".
- With `max_iterations <= 0` the loop never runs, so the `print` at
  `get_clusters.py:43` reads `n_clusters`, which was never bound, and
  raises UnboundLocalError. The model reports this as `NoIterations`.
- An inexact result is returned without any error signal. The model's
  `Resolution` carries an `exact` flag, plus the threshold and the number
  of cuts.
- `save_clusters_into_dirs` does not check that the listing and the tree
  have the same size. A listing position that is not a value of the leaf
  order `ll` fails with `MissingLeaf` (a KeyError at `get_clusters.py:55`). A clustered sample
  with no file fails with `MissingSample` (a KeyError at
  `get_clusters.py:63`), and only when the loop reaches that sample.
- In exact arithmetic, which is what the model uses, every probe of
  `get_fclusters` lies strictly below the largest merge distance when that
  distance is positive, because `right` only ever comes down to a probed
  `mid`. With the `'distance'` criterion, every cut below the largest merge
  distance leaves at least two clusters. So in the model a target of 1 is
  never matched: the search uses all its iterations and returns an inexact
  result (`Bisection.ProbesBelowMax`, `Bisection.SingleClusterNeverHit`).
  In the program's doubles, rounding changes this. Once `left` is within an
  ulp of the top, `(right + left) / 2` can round up to the largest distance
  itself and find one cluster: with a largest distance of 1.0 this happens
  on the 54th probe. Or it can round down to `left`, and the search then
  repeats that probe until the budget runs out.
- The listing in `save_clusters_into_dirs` is leaf-ordered: position `p`
  holds the file of sample `ll[p]`, so sample `k`'s own file is at
  position `reverse[k]`. But `wav_dict` is keyed by `reverse[i]`, which gives
  sample `k` the file at position `ll[k]`. The two agree only where the
  leaf order is its own inverse. The model follows the code as written; see
  "## Findings".
- `feature_dict` keeps the order in which names were first set, and that
  order becomes the order of the data frame's columns and so of the sample
  indices the tree is built over. A name that is extracted again keeps its
  first position. `Workflow.GetFeatureDict` returns this key order beside the
  dictionary.

## Model

| member | source | states |
|---|---|---|
| Bisection.GetFClusters | get_clusters.py:14-44 | Fails with `TooManyClusters` when the target exceeds the number of linkage rows, with `EmptyLinkage` on an empty linkage, and with `NoIterations` when no probe is allowed; succeeds in every other case. On success, between 1 and `maxIterations` cuts were made and every probe before the last missed. The vector returned is the cut at the last probed threshold. It is flagged exact exactly when its count is the target, and an inexact result only comes after the last allowed probe. The threshold lies in `[0, max distance]`. |
| Bisection.AfterOrdered | get_clusters.py:31-36 | The bounds stay ordered inside `[0, max distance]`, with `mid` their average. |
| Bisection.StepReplacesOneBound | get_clusters.py:31-36 | A probe that misses replaces exactly one bound by the probed `mid`: `left` when there are too many clusters, `right` when there are too few. |
| Bisection.AfterNeverWidens | get_clusters.py:31-36 | Later intervals lie inside earlier ones. |
| Bisection.AfterWidth | get_clusters.py:24-36 | After `k` missed probes the interval is `max distance / 2^k` wide. |
| Bisection.HalvedIsDivision | get_clusters.py:33 | Halving `k` times is division by `2^k`. |
| Bisection.AfterBrackets | get_clusters.py:31-36 | A moved `left` is a threshold that gave more clusters than the target, and a moved `right` one that gave fewer. |
| Bisection.AfterKeepsTargetInside | get_clusters.py:28-40 | If the count does not increase with the threshold, every threshold that hits the target lies strictly inside each moved bound, so bisection never discards one. |
| Bisection.UpdatedMidDiffers | get_clusters.py:41-44 | On exhaustion, the `mid` recomputed after the last probe differs from the probed threshold whenever some merge distance is positive. So the returned vector belongs to the previous `mid`. |
| Bisection.ProbesBelowMax | get_clusters.py:24-36 | In exact arithmetic, with a positive largest merge distance, `left` and every probed `mid` lie strictly below it, and `right` never exceeds it. |
| Bisection.SingleClusterNeverHit | get_clusters.py:21-44 | In exact arithmetic, if every cut below the largest merge distance leaves two clusters or more, no probe for one cluster matches. A resolution for one cluster is then inexact and used all `maxIterations` probes. |
| Bisection.ProbeAtResolves | get_clusters.py:38-44 | The probe after `k` misses, taken as an exact match or as the last allowed probe, satisfies every promise of a resolution. |
| Bisection.MaxDistanceIsMaximum | get_clusters.py:25 | `Z[:,2].max()` is a merge distance of the linkage, and no row has a larger one. |
| Bisection.MaxLabelIsMaximum | get_clusters.py:30 | `f_mid.max()` is a label of the vector, and no sample has a larger one. |
| Materializer.ReverseMapsLastPositions | get_clusters.py:49-51 | The keys of `reverse` are the leaf-order entries. Each maps to the last position holding it, and different keys map to different positions. |
| Materializer.ReverseInvertsForward | get_clusters.py:49-51 | A one-to-one leaf order: `reverse` undoes `forward` in both directions. |
| Materializer.ReverseOfPermutation | get_clusters.py:50-51 | For a permutation, every sample index is in `reverse`, mapped in range, and `reverse[ll[k]] == k`. |
| Materializer.SampleFilesShape | get_clusters.py:55 | `wav_dict` fails at the first listing position `reverse` lacks. Otherwise its keys are the images of the positions. With a one-to-one `reverse`, each image maps to that position's file. |
| Materializer.SampleFilesFollowLeafOrder | get_clusters.py:47-55 | For a permutation leaf order and one file per sample, `wav_dict` succeeds. Its keys are exactly the sample indices, and sample `k` maps to the file listed at position `ll[k]`. |
| Materializer.LeafOrderMismatch | get_clusters.py:47-56 | For a permutation leaf order and distinct file names, `wav_dict` gives sample `k` its own leaf-ordered file `files[reverse[k]]` exactly when `ll[k] == reverse[k]`. |
| Materializer.LeafOrderMismatchExample | get_clusters.py:47-56 | With leaf order `[1, 2, 0]` and listing `a, b, c`, `wav_dict` is `{0: b, 1: c, 2: a}`, while sample 0's own file is `c`. |
| Materializer.LeafOrderedSampleFiles | get_clusters.py:47-56 | Keyed by `forward` instead (`{ll[i]: f ...}`), the map succeeds for a permutation leaf order. Its keys are exactly the sample indices, and sample `k` gets `files[reverse[k]]`, its own file in the leaf-ordered listing. |
| Materializer.ClusterDirInjective | get_clusters.py:58 | Different non-negative labels get different `clusters/cluster_NNNN` directories. |
| Materializer.DistributeShape | get_clusters.py:61-63 | Copying succeeds exactly when every sample in the copy order has a file. Copy `k` then takes sample `order[k]`'s file into its label's directory. |
| Materializer.DistributeFailsAtFirstMissing | get_clusters.py:63 | A failure names the first sample in copy order that has no file, and every earlier sample had one. |
| Materializer.DistributeFailureStops | get_clusters.py:62-63 | Once a copy fails, nothing later changes the outcome. |
| Materializer.MembersPrefix | get_clusters.py:61-62 | Scanning further only appends cluster members. |
| Materializer.MembersLabels | get_clusters.py:61 | `np.where(cm == c)` lists only samples labelled `c`. |
| Materializer.CopyOrderLabels | get_clusters.py:57-62 | Copying clusters `1..c` touches only samples with a label in `1..c`. |
| Materializer.CopyOrderExactlyOnce | get_clusters.py:57-62 | In the copy order for clusters `1..c`, each sample with a label in `1..c` occurs exactly once and no other index occurs. |
| Materializer.CopyOrderIsPermutation | get_clusters.py:57-62 | With labels starting at 1, the copy order up to the maximum label is a permutation of all sample indices. |
| Materializer.DirectoryHoldsOnlyItsCluster | get_clusters.py:58-63 | A copy lands in the directory of label `c` exactly when its sample is labelled `c`. |
| Materializer.MaterializeEverySample | get_clusters.py:46-63 | For a permutation leaf order, one file per sample and labels from 1, every sample is copied exactly once. Copy `k` takes the file at position `ll[order[k]]` into the directory of sample `order[k]`'s label. |
| Materializer.MaterializeOwnFiles | get_clusters.py:46-63 | With the corrected sample map, every sample is copied exactly once. Copy `k` takes sample `order[k]`'s own file, the one at position `reverse[order[k]]`, into the directory of its label. |
| Materializer.CopyOrderExample | get_clusters.py:57-62 | The membership vector `[1, 1, 2, 2, 3]` has maximum label 3 and is copied in the order 0, 1, 2, 3, 4. |
| Materializer.IdentityOrderExample | get_clusters.py:46-63 | Membership `[1, 1, 2, 2, 3]` with the identity leaf order puts two files into cluster 1, two into cluster 2 and one into cluster 3. Each file goes into its own sample's directory. |
| Materializer.SaveClustersIntoDirs | get_clusters.py:46-63 | A `wav_dict` failure passes through, and an empty membership fails, both before any directory is made. Otherwise the copies are those of `Distribute` over all clusters `1..max`, in the order of the nested loops. On success the directories of all labels `1..max` exist. A missing file fails at a sample whose label is in `1..max`, after the directories of labels up to that one exist. |
| Materializer.CopyClusters | get_clusters.py:57-63 | The outer loop over clusters makes exactly the copies of the copy order up to the maximum label, stopping at the first missing file. |
| Materializer.ClusterFailure | get_clusters.py:61-63 | If copying clusters `1..c-1` succeeded and cluster `c` fails, the sample with no file carries label `c`. |
| Materializer.CopyOrderFailure | get_clusters.py:57-63 | Copying clusters `1..c` can only fail with `MissingSample` at a sample whose label is in `1..c`. |
| Materializer.MadeDirsAt | get_clusters.py:57-60 | Every label `c` in `1..max` gets its directory, at position `c - 1` of the directory list. |
| Materializer.EmptyClusterDirectory | get_clusters.py:57-63 | A label in `1..max` that no sample carries still gets its directory, and no copy lands in it, so it stays empty (membership `[1, 3]` leaves `cluster_0002` empty). |
| Materializer.CopyCluster | get_clusters.py:61-63 | One pass of the inner loop appends exactly the copies of one cluster's members, in index order. |
| Text.DecimalRoundTrip | get_clusters.py:58 | Reading back the decimal rendering of a number gives the number. |
| Text.ZFillShape | wav_clustering_workflow.py:88 | `zfill` never shortens, pads to exactly `width`, and puts the zeros after a sign. |
| Text.ZFillRoundTrip | wav_clustering_workflow.py:88 | A zero-padded rendering is all digits and reads back to the number. |
| Text.ZFillInjective | get_clusters.py:58 | Distinct numbers get distinct zero-padded strings, at any width. |
| Paths.JoinSplit | wav_clustering_workflow.py:57 | Joining the pieces of `w.split('/')` with '/' gives back `w`. |
| Paths.SplitJoin | wav_clustering_workflow.py:57-60 | Splitting a '/'-join of separator-free pieces gives back the pieces. |
| Paths.SplitPiecesHaveNoSeparator | wav_clustering_workflow.py:57 | No piece of a split contains '/'. |
| Paths.PathJoinInjective | wav_clustering_workflow.py:89 | Joining a directory with two relative names gives the same path only for the same name. |
| Workflow.FlattenNFramesLength | wav_clustering_workflow.py:42-45 | The flattened vector has `rows * kept` entries. `kept` is `min(n, cols)` for `n >= 0` and `max(0, cols + n)` for a negative `n`. |
| Workflow.FlattenNFramesEntry | wav_clustering_workflow.py:43-45 | Entry `f[r][j]` of a kept column lands at position `j * rows + r` (Fortran order). |
| Workflow.FlattenNFramesPosition | wav_clustering_workflow.py:43-45 | Conversely, position `p` holds `f[p % rows][p / rows]`, from a kept column. |
| Workflow.FlattenExample | wav_clustering_workflow.py:44 | `[[1,2],[3,4],[5,6]]` flattens to `[1,3,5,2,4,6]` when at least two frames are kept. |
| Workflow.BaseNameIsLastComponent | wav_clustering_workflow.py:57 | The base name is the longest suffix of `w` without '/'. It is all of `w` exactly when `w` has no '/', and otherwise a '/' precedes it. |
| Workflow.SplitHasOnePiece | wav_clustering_workflow.py:57-59 | A path splits into one piece exactly when it has no '/'. |
| Workflow.DirWavIsLastTwoComponents | wav_clustering_workflow.py:58-60 | With the parent directory, naming fails exactly when `w` has no '/'. Otherwise the name is the separator-free parent piece, '/' and the base name, and it ends `w` at its start or right after a '/'. |
| Workflow.FeatureDictSucceeds | wav_clustering_workflow.py:55-65 | Collecting features succeeds exactly when every path can be named. The naming error is not caught. |
| Workflow.FeatureDictKeys | wav_clustering_workflow.py:61-65 | A name is a key exactly when some sample of that name was extracted. A failed extraction adds nothing. |
| Workflow.LastExtractionIsLast | wav_clustering_workflow.py:56-63 | `LastExtraction` finds the last extracted sample of a name, and -1 means there is none. |
| Workflow.FeatureDictKeepsLastExtraction | wav_clustering_workflow.py:55-65 | A name's entry is the trimmed, flattened features of the last sample of that name that was extracted. A later sample of the same name overwrites it, and a failed one leaves it alone. |
| Workflow.FeatureDictFailureStops | wav_clustering_workflow.py:56-60 | A naming failure after some paths is the failure of the whole run. |
| Workflow.FirstExtractionIsFirst | wav_clustering_workflow.py:56-63 | `FirstExtraction` finds the first extracted sample of a name: no sample of that name before it was extracted, and -1 means none was. |
| Workflow.FeatureOrderByFirstExtraction | wav_clustering_workflow.py:55-66 | The dict's key order holds a name exactly when some sample of that name was extracted. Names appear in the order of their first extraction, so each appears once. |
| Workflow.FeatureOrderKeys | wav_clustering_workflow.py:55-65 | The key order holds exactly the keys of `feature_dict`. |
| Workflow.GetFeatureDict | wav_clustering_workflow.py:55-66 | The loop computes exactly `FeatureDict` with the path naming of `include_parent_dir`, whose properties the lemmas above state. On success it also returns the dict's key order, which is exactly `FeatureOrder`: new names go to the end and a re-extracted name keeps its place. |
| Workflow.OutNameNumbers | wav_clustering_workflow.py:88 | `str(i).zfill(5) + '.wav'` has at least 9 characters. The part before ".wav" reads back as `i`, and distinct numbers give distinct names. |
| Workflow.OutPathsDistinct | wav_clustering_workflow.py:88-89 | Two numbered copies share an output path only when they have the same number. |
| Workflow.SaveOrderedWavCopies | wav_clustering_workflow.py:70-89 | The manifest is `outdir/original_filenames.txt`, with one line per sample, `parent_dir/w` plus a newline, in list order. Copy `i` goes from that same source to `outdir/NNNNN.wav` for `i`. No two copies share a destination. |

## Left out

- scipy's `ward`, `pdist`, `fcluster`, `leaves_list` and `dendrogram` are not modelled. `fcluster` is the parameter `cut`, and `leaves_list` is the parameter `ll`. Results about a real leaf order assume it is a permutation, which the model states as a hypothesis.
- The workflow's drivers are not part of this model: loading the pickled linkage, `save_cluster_folders`, the 909 test drivers and the plotting. Neither are the pandas data frame built from `feature_dict` and the `print` calls.
- Audio reading and feature extraction (`get_short_term_features`, pyAudioAnalysis) are the parameter `extract`. `None` models the too-short sample that raises TypeError at the unpacking at `wav_clustering_workflow.py:62`.
- Filesystem effects are not performed. `glob`/`sorted` is the parameter `files`. The directories `os.makedirs` makes sure exist in `save_clusters_into_dirs` are returned as a list of paths. The model does not say whether a directory already existed. `os.mkdir` of the output directory in `save_ordered_wav_copies` is not represented, because its copies name that directory. File writes and `shutil.copy` are returned as lines and `Copy` values.
- Materializer.SaveClustersIntoDirs: the directory list is returned beside the copies, computed from the last label the loop reached. It does not record where each `os.makedirs` falls among the copies.
- Materializer.SaveClustersIntoDirs: copies made before a failing copy are not returned: a failure is a bare `Failure`, while the real program leaves those earlier files on disk.
- Thresholds and features are exact reals, not IEEE doubles, so rounding of `(right + left) / 2` is not modelled. Near the top of the interval that rounding can make `mid` equal the largest merge distance, where the program finds one cluster, or equal `left`, where the search stalls.
- A materializer that reorders the membership vector by the leaf order and pairs it positionally with the listing, and a cut by cluster count (scipy's `maxclust` criterion), do not exist in this code and are not modelled.
- Bisection.GetFClusters: how many probes the search needs to hit a target depends on `fcluster` and is not proved. The model proves the bracket invariants, the halving width and that no hitting threshold is discarded. In exact arithmetic, a target that only the top of the interval reaches is never hit at all (`Bisection.SingleClusterNeverHit`). In doubles, rounding can reach that top after about 53 probes, as said above.

## Findings

| source | as written | input that shows it | evidently intended | confidence | as-written member | corrected member |
|---|---|---|---|---|---|---|
| get_clusters.py:55-56 | `wav_dict = {reverse[i]: f ...}` gives sample `k` the file at listing position `ll[k]` | leaf order `[1, 2, 0]`, listing `a, b, c`: `wav_dict` is `{0: b, 1: c, 2: a}`, but in a leaf-ordered listing sample 0's file is `c` | `{ll[i]: f ...}` (that is, keyed by `forward`), so sample `k` gets `files[reverse[k]]` | medium, not executed; it depends on the listing being leaf-ordered, as the message at line 56 says | Materializer.LeafOrderMismatchExample | Materializer.LeafOrderedSampleFiles |

`Materializer.SaveClustersIntoDirs` and `Materializer.MaterializeEverySample`
follow the code as written, with `wav_dict` keyed by `reverse`. The
corrected map is `SampleFiles(Forward(ll), files)`: the same fold, keyed by
`forward`, with the same `MissingLeaf` failure for a position the leaf order
lacks. `Materializer.MaterializeOwnFiles` states what the copying does with
it: every sample lands in its cluster's directory with its own file.

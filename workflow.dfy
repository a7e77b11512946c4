/**
 * The sequential helpers of the sample-ordering workflow
 * (wav_clustering_workflow.py): trimming and flattening a feature matrix,
 * naming a sample after its path, collecting the features of the samples
 * whose extraction succeeds, and the numbered copies made in leaf order.
 *
 * Feature extraction is not modelled: it is the parameter `extract`, which
 * yields a matrix or nothing when the sample is too short. Files are not
 * written: the manifest is returned as the list of strings written to it and
 * the copies as (source, destination) pairs, both in the order they are made.
 */
module Workflow {
  import opened Wrappers
  import Text
  import Paths
  import Materializer

  /** Every row of `f` has `cols` entries: a matrix with `|f|` rows and `cols` columns. */
  predicate Rectangular<T>(f: seq<seq<T>>, cols: nat) {
    forall r :: 0 <= r < |f| ==> |f[r]| == cols
  }

  /**
   * How many columns the slice `[:, :n]` keeps of `cols`: the first `n`
   * when `n` is not negative, all but the last `-n` when it is.
   */
  function KeptColumns(cols: nat, n: int): nat {
    if n >= 0 then (if n < cols then n else cols)
    else if cols + n > 0 then cols + n else 0
  }

  /** Column `j` of `f`, top to bottom. */
  function Column<T>(f: seq<seq<T>>, cols: nat, j: nat): (c: seq<T>)
    requires Rectangular(f, cols) && j < cols
    ensures |c| == |f| && forall r :: 0 <= r < |f| ==> c[r] == f[r][j]
  {
    seq(|f|, r requires 0 <= r < |f| => f[r][j])
  }

  /** The first `k` columns of `f`, one after the other (Fortran order). */
  function ColumnMajor<T>(f: seq<seq<T>>, cols: nat, k: nat): seq<T>
    requires Rectangular(f, cols) && k <= cols
  {
    if k == 0 then [] else ColumnMajor(f, cols, k - 1) + Column(f, cols, k - 1)
  }

  /** `flatten_n_frames(f, n)`: `f[:, :n].flatten('F')`. */
  function FlattenNFrames<T>(f: seq<seq<T>>, cols: nat, n: int): seq<T>
    requires Rectangular(f, cols)
  {
    ColumnMajor(f, cols, KeptColumns(cols, n))
  }

  lemma {:induction false} ColumnMajorLength<T>(f: seq<seq<T>>, cols: nat, k: nat)
    requires Rectangular(f, cols) && k <= cols
    ensures |ColumnMajor(f, cols, k)| == k * |f|
  {
    if k > 0 {
      ColumnMajorLength(f, cols, k - 1);
      assert k * |f| == (k - 1) * |f| + |f|;
    }
  }

  /** Entry `(r, j)` of a `rows`-row matrix lies in the first `k` columns' worth of positions when `j < k`. */
  lemma PositionBelow(j: int, r: int, rows: int, k: int)
    requires 0 <= j < k && 0 <= r < rows
    ensures 0 <= j * rows + r < k * rows
  {
    assert (k - j - 1) * rows >= 0;
    assert k * rows == j * rows + rows + (k - j - 1) * rows;
  }

  lemma {:induction false} ColumnMajorEntry<T>(f: seq<seq<T>>, cols: nat, k: nat, j: int, r: int)
    requires Rectangular(f, cols) && k <= cols
    requires 0 <= j < k && 0 <= r < |f|
    ensures j * |f| + r < |ColumnMajor(f, cols, k)| && ColumnMajor(f, cols, k)[j * |f| + r] == f[r][j]
  {
    var prev := ColumnMajor(f, cols, k - 1);
    ColumnMajorLength(f, cols, k);
    ColumnMajorLength(f, cols, k - 1);
    PositionBelow(j, r, |f|, k);
    assert ColumnMajor(f, cols, k) == prev + Column(f, cols, k - 1);
    if j < k - 1 {
      PositionBelow(j, r, |f|, k - 1);
      ColumnMajorEntry(f, cols, k - 1, j, r);
    } else {
      assert j * |f| == |prev|;
    }
  }

  /**
   * Flattening keeps the first `n` columns (all of them when there are
   * fewer), so the result has `rows * min(n, cols)` entries.
   */
  lemma FlattenNFramesLength<T>(f: seq<seq<T>>, cols: nat, n: int)
    requires Rectangular(f, cols)
    ensures |FlattenNFrames(f, cols, n)| == |f| * KeptColumns(cols, n)
    ensures n >= 0 ==> |FlattenNFrames(f, cols, n)| == |f| * (if n < cols then n else cols)
    ensures n < 0 ==> |FlattenNFrames(f, cols, n)| == |f| * (if cols + n > 0 then cols + n else 0)
  {
    ColumnMajorLength(f, cols, KeptColumns(cols, n));
  }

  /** The result lists the kept columns one after the other: entry `f[r][j]` lands at position `j * rows + r`. */
  lemma FlattenNFramesEntry<T>(f: seq<seq<T>>, cols: nat, n: int, j: int, r: int)
    requires Rectangular(f, cols)
    requires 0 <= j < KeptColumns(cols, n) && 0 <= r < |f|
    ensures j * |f| + r < |FlattenNFrames(f, cols, n)| && FlattenNFrames(f, cols, n)[j * |f| + r] == f[r][j]
  {
    ColumnMajorEntry(f, cols, KeptColumns(cols, n), j, r);
  }

  /** Position `p` of a column-major listing of `rows`-tall columns is row `p % rows` of column `p / rows`. */
  lemma Unpack(p: int, rows: int, k: int)
    requires 0 <= p < k * rows && rows > 0
    ensures 0 <= p / rows < k && 0 <= p % rows < rows && p == (p / rows) * rows + p % rows
  {
  }

  /** Conversely, every position `p` of the result holds row `p % rows` of a kept column `p / rows`. */
  lemma FlattenNFramesPosition<T>(f: seq<seq<T>>, cols: nat, n: int, p: int)
    requires Rectangular(f, cols)
    requires 0 <= p < |FlattenNFrames(f, cols, n)|
    ensures |f| > 0 && p / |f| < KeptColumns(cols, n)
    ensures FlattenNFrames(f, cols, n)[p] == f[p % |f|][p / |f|]
  {
    var k := KeptColumns(cols, n);
    ColumnMajorLength(f, cols, k);
    assert |f| > 0;
    Unpack(p, |f|, k);
    ColumnMajorEntry(f, cols, k, p / |f|, p % |f|);
  }

  /** The example in the comment of `flatten_n_frames`: adjacent frames first, then the next feature. */
  lemma FlattenExample(n: int)
    requires n >= 2
    ensures FlattenNFrames([[1, 2], [3, 4], [5, 6]], 2, n) == [1, 3, 5, 2, 4, 6]
  {
    var f := [[1, 2], [3, 4], [5, 6]];
    assert KeptColumns(2, n) == 2;
    assert Column(f, 2, 0) == [1, 3, 5];
    assert Column(f, 2, 1) == [2, 4, 6];
    assert ColumnMajor(f, 2, 1) == [1, 3, 5];
  }

  // ----- naming a sample after its path -----

  datatype NamingError =
    | NoParentDirectory   // `w.split('/')[-2]` of a path with no '/' (IndexError, line 59)

  /**
   * The name under which `get_features_frame` files the sample at path `w`:
   * its last '/'-separated component, or, with `includeParentDir`, the last
   * two joined by '/' (a "dir_wav" such as "kicks/kd01.wav").
   */
  function SampleName(w: string, includeParentDir: bool): Result<string, NamingError> {
    var parts := Paths.Split(w);
    var base := parts[|parts| - 1];
    if !includeParentDir then Success(base)
    else if |parts| < 2 then Failure(NoParentDirectory)
    else Success(parts[|parts| - 2] + [Paths.SEP] + base)
  }

  /**
   * The base name is the longest suffix of `w` without a separator: it is
   * all of `w` exactly when `w` has no separator, and otherwise a separator
   * comes right before it.
   */
  lemma BaseNameIsLastComponent(w: string)
    ensures SampleName(w, false).Success?
    ensures var b := SampleName(w, false).value;
      && Paths.NoSeparator(b)
      && |b| <= |w| && b == w[|w| - |b|..]
      && (|b| == |w| <==> Paths.NoSeparator(w))
      && (|b| < |w| ==> w[|w| - |b| - 1] == Paths.SEP)
  {
    var k := Paths.LastIndexOf(w, Paths.SEP);
    Paths.LastPiece(w);
    Paths.LastIndexOfFinds(w, Paths.SEP);
    Paths.LastIndexOfIsLast(w, Paths.SEP);
    var b := w[k + 1..];
    assert SampleName(w, false).value == b;
    assert forall j :: 0 <= j < |b| ==> b[j] == w[k + 1 + j];
    if k >= 0 {
      assert w[k] in w;
    } else {
      assert b == w;
    }
  }

  /** A path has one piece exactly when it has no separator. */
  lemma SplitHasOnePiece(w: string)
    ensures |Paths.Split(w)| == 1 <==> Paths.NoSeparator(w)
  {
    Paths.LastIndexOfFinds(w, Paths.SEP);
  }

  /**
   * With the parent directory, naming fails exactly when `w` has no
   * separator; otherwise the name is the last separator-free piece before
   * the base name, a separator and the base name, and it ends `w`, right
   * after a separator or at the start.
   */
  lemma DirWavIsLastTwoComponents(w: string)
    ensures SampleName(w, true).Success? <==> !Paths.NoSeparator(w)
    ensures SampleName(w, true).Success? ==>
      var name := SampleName(w, true).value;
      var b := SampleName(w, false).value;
      var d := name[..|name| - |b| - 1];
      && |b| < |name| <= |w|
      && name == d + [Paths.SEP] + b && Paths.NoSeparator(d)
      && name == w[|w| - |name|..]
      && (|name| < |w| ==> w[|w| - |name| - 1] == Paths.SEP)
  {
    SplitHasOnePiece(w);
    var parts := Paths.Split(w);
    if |parts| >= 2 {
      var b := parts[|parts| - 1];
      var d := parts[|parts| - 2];
      var name := d + [Paths.SEP] + b;
      assert SampleName(w, false).value == b && SampleName(w, true).value == name;
      Paths.SplitPiecesHaveNoSeparator(w);
      Paths.JoinSplit(w);
      JoinEndsWithLastTwo(parts);
    }
  }

  /** The last two pieces, joined, end the join of all pieces, at its start or right after a separator. */
  lemma JoinEndsWithLastTwo(parts: seq<string>)
    requires |parts| >= 2
    ensures var w := Paths.Join(parts);
      var d, b := parts[|parts| - 2], parts[|parts| - 1];
      var name := d + [Paths.SEP] + b;
      && |name| <= |w| && name == w[|w| - |name|..]
      && name[..|name| - |b| - 1] == d
      && (|name| < |w| ==> w[|w| - |name| - 1] == Paths.SEP)
  {
    var w := Paths.Join(parts);
    var d, b := parts[|parts| - 2], parts[|parts| - 1];
    var name := d + [Paths.SEP] + b;
    Paths.JoinLastTwo(parts);
    var pre := if |parts| == 2 then [] else Paths.Join(parts[..|parts| - 2]) + [Paths.SEP];
    assert w == pre + name;
    assert name == w[|pre|..];
    assert name[..|d|] == d;
  }

  // ----- collecting the features of the samples -----

  /** What extraction yields for a sample: a matrix with `frames` columns. */
  datatype Features = Features(matrix: seq<seq<real>>, frames: nat)

  /** Extraction yields well-formed matrices for the given paths. */
  predicate Extracts(extract: string -> Option<Features>, wavLocs: seq<string>) {
    forall i :: 0 <= i < |wavLocs| ==>
      extract(wavLocs[i]).Some? ==> Rectangular(extract(wavLocs[i]).value.matrix, extract(wavLocs[i]).value.frames)
  }

  /** The feature vector of one extraction: its first `firstNFrames` frames, flattened. */
  function Trimmed(x: Features, firstNFrames: int): seq<real>
    requires Rectangular(x.matrix, x.frames)
  {
    FlattenNFrames(x.matrix, x.frames, firstNFrames)
  }

  /** The naming `get_features_frame` applies to every path. */
  function Naming(includeParentDir: bool): string -> Result<string, NamingError> {
    w => SampleName(w, includeParentDir)
  }

  /**
   * `feature_dict` after the paths `wavLocs`, one at a time: the name is
   * derived first (a failure there ends the run), a failed extraction adds
   * nothing, and a successful one sets the entry for the name.
   */
  function FeatureDict(wavLocs: seq<string>, firstNFrames: int, nameOf: string -> Result<string, NamingError>, extract: string -> Option<Features>)
    : Result<map<string, seq<real>>, NamingError>
    requires Extracts(extract, wavLocs)
  {
    if wavLocs == [] then Success(map[])
    else
      var w := wavLocs[|wavLocs| - 1];
      match FeatureDict(wavLocs[..|wavLocs| - 1], firstNFrames, nameOf, extract)
      case Failure(e) => Failure(e)
      case Success(d) =>
        match nameOf(w)
        case Failure(e) => Failure(e)
        case Success(name) =>
          match extract(w)
          case None => Success(d)
          case Some(x) => Success(d[name := Trimmed(x, firstNFrames)])
  }

  /** The sample at `w` reaches `feature_dict` under `name`. */
  predicate Extracted(w: string, nameOf: string -> Result<string, NamingError>, extract: string -> Option<Features>, name: string) {
    nameOf(w) == Success(name) && extract(w).Some?
  }

  /** Sample `i` is the last of `wavLocs` extracted under `name`. */
  predicate LastExtracted(wavLocs: seq<string>, nameOf: string -> Result<string, NamingError>, extract: string -> Option<Features>, name: string, i: int)
    requires 0 <= i < |wavLocs|
  {
    && Extracted(wavLocs[i], nameOf, extract, name)
    && forall j :: i < j < |wavLocs| ==> !Extracted(wavLocs[j], nameOf, extract, name)
  }

  lemma ExtractsPrefix(extract: string -> Option<Features>, wavLocs: seq<string>, n: nat)
    requires Extracts(extract, wavLocs) && n <= |wavLocs|
    ensures Extracts(extract, wavLocs[..n])
  {
    assert forall i :: 0 <= i < n ==> wavLocs[..n][i] == wavLocs[i];
  }

  /** Collecting succeeds exactly when every path can be named. */
  lemma {:induction false} FeatureDictSucceeds(wavLocs: seq<string>, firstNFrames: int, nameOf: string -> Result<string, NamingError>, extract: string -> Option<Features>)
    requires Extracts(extract, wavLocs)
    ensures FeatureDict(wavLocs, firstNFrames, nameOf, extract).Success? <==>
      forall i :: 0 <= i < |wavLocs| ==> nameOf(wavLocs[i]).Success?
  {
    if wavLocs != [] {
      var init := wavLocs[..|wavLocs| - 1];
      ExtractsPrefix(extract, wavLocs, |wavLocs| - 1);
      FeatureDictSucceeds(init, firstNFrames, nameOf, extract);
      assert forall i :: 0 <= i < |init| ==> init[i] == wavLocs[i];
    }
  }

  /**
   * A name is in `feature_dict` exactly when some sample of that name was
   * extracted: a sample whose extraction fails adds no entry.
   */
  lemma {:induction false} FeatureDictKeys(wavLocs: seq<string>, firstNFrames: int, nameOf: string -> Result<string, NamingError>,
                                           extract: string -> Option<Features>, name: string)
    requires Extracts(extract, wavLocs)
    requires FeatureDict(wavLocs, firstNFrames, nameOf, extract).Success?
    ensures name in FeatureDict(wavLocs, firstNFrames, nameOf, extract).value <==>
      exists i :: 0 <= i < |wavLocs| && Extracted(wavLocs[i], nameOf, extract, name)
  {
    if wavLocs != [] {
      var init := wavLocs[..|wavLocs| - 1];
      var last := |wavLocs| - 1;
      ExtractsPrefix(extract, wavLocs, last);
      FeatureDictKeys(init, firstNFrames, nameOf, extract, name);
      assert forall i :: 0 <= i < |init| ==> init[i] == wavLocs[i];
      if Extracted(wavLocs[last], nameOf, extract, name) {
        assert name in FeatureDict(wavLocs, firstNFrames, nameOf, extract).value;
      }
    }
  }

  /** The position of the last sample of `wavLocs` extracted under `name`, or -1 when there is none. */
  function LastExtraction(wavLocs: seq<string>, nameOf: string -> Result<string, NamingError>, extract: string -> Option<Features>, name: string): (i: int)
    ensures -1 <= i < |wavLocs|
    ensures i >= 0 ==> Extracted(wavLocs[i], nameOf, extract, name)
  {
    if wavLocs == [] then -1
    else if Extracted(wavLocs[|wavLocs| - 1], nameOf, extract, name) then |wavLocs| - 1
    else LastExtraction(wavLocs[..|wavLocs| - 1], nameOf, extract, name)
  }

  /** `LastExtraction` finds the last extracted sample of that name, and -1 means there is none. */
  lemma {:induction false} LastExtractionIsLast(wavLocs: seq<string>, nameOf: string -> Result<string, NamingError>, extract: string -> Option<Features>, name: string)
    ensures var i := LastExtraction(wavLocs, nameOf, extract, name);
      && (i >= 0 ==> LastExtracted(wavLocs, nameOf, extract, name, i))
      && (i == -1 <==> forall j :: 0 <= j < |wavLocs| ==> !Extracted(wavLocs[j], nameOf, extract, name))
  {
    if wavLocs != [] && !Extracted(wavLocs[|wavLocs| - 1], nameOf, extract, name) {
      var init := wavLocs[..|wavLocs| - 1];
      LastExtractionIsLast(init, nameOf, extract, name);
      assert forall j :: 0 <= j < |init| ==> init[j] == wavLocs[j];
    }
  }

  /**
   * The entry of a name is the trimmed features of the last sample of that
   * name that was extracted: a later sample of the same name overwrites it,
   * one whose extraction fails leaves it alone, and other names never touch it.
   */
  lemma {:induction false} FeatureDictKeepsLastExtraction(wavLocs: seq<string>, firstNFrames: int, nameOf: string -> Result<string, NamingError>,
                                                          extract: string -> Option<Features>, name: string)
    requires Extracts(extract, wavLocs)
    requires FeatureDict(wavLocs, firstNFrames, nameOf, extract).Success?
    ensures var d := FeatureDict(wavLocs, firstNFrames, nameOf, extract).value;
      var i := LastExtraction(wavLocs, nameOf, extract, name);
      && (name in d <==> i >= 0)
      && (name in d ==> d[name] == Trimmed(extract(wavLocs[i]).value, firstNFrames))
  {
    if wavLocs != [] {
      var init := wavLocs[..|wavLocs| - 1];
      ExtractsPrefix(extract, wavLocs, |wavLocs| - 1);
      FeatureDictKeepsLastExtraction(init, firstNFrames, nameOf, extract, name);
    }
  }

  /**
   * The key order of `feature_dict` after the paths `wavLocs`: a dict keeps
   * the order in which its keys were first set, so a name joins the order at
   * its first extraction and a later one for the same name keeps its place.
   */
  function FeatureOrder(wavLocs: seq<string>, nameOf: string -> Result<string, NamingError>, extract: string -> Option<Features>): seq<string> {
    if wavLocs == [] then []
    else
      var order := FeatureOrder(wavLocs[..|wavLocs| - 1], nameOf, extract);
      var w := wavLocs[|wavLocs| - 1];
      if nameOf(w).Success? && extract(w).Some? && nameOf(w).value !in order then order + [nameOf(w).value]
      else order
  }

  /** The position of the first sample of `wavLocs` extracted under `name`, or -1 when there is none. */
  function FirstExtraction(wavLocs: seq<string>, nameOf: string -> Result<string, NamingError>, extract: string -> Option<Features>, name: string): (i: int)
    ensures -1 <= i < |wavLocs|
    ensures i >= 0 ==> Extracted(wavLocs[i], nameOf, extract, name)
  {
    if wavLocs == [] then -1
    else
      var i := FirstExtraction(wavLocs[..|wavLocs| - 1], nameOf, extract, name);
      if i >= 0 then i
      else if Extracted(wavLocs[|wavLocs| - 1], nameOf, extract, name) then |wavLocs| - 1
      else -1
  }

  /** `FirstExtraction` finds the first extracted sample of that name, and -1 means there is none. */
  lemma {:induction false} FirstExtractionIsFirst(wavLocs: seq<string>, nameOf: string -> Result<string, NamingError>, extract: string -> Option<Features>, name: string)
    ensures var i := FirstExtraction(wavLocs, nameOf, extract, name);
      && (forall j :: 0 <= j < |wavLocs| && (i == -1 || j < i) ==> !Extracted(wavLocs[j], nameOf, extract, name))
  {
    if wavLocs != [] {
      var init := wavLocs[..|wavLocs| - 1];
      FirstExtractionIsFirst(init, nameOf, extract, name);
      assert forall j :: 0 <= j < |init| ==> init[j] == wavLocs[j];
    }
  }

  /**
   * The key order lists the extracted names, each once, by the position of
   * their first extraction: a name is in it exactly when some sample of
   * that name was extracted, and an earlier name was first extracted earlier.
   */
  lemma {:induction false} FeatureOrderByFirstExtraction(wavLocs: seq<string>, nameOf: string -> Result<string, NamingError>, extract: string -> Option<Features>)
    ensures var order := FeatureOrder(wavLocs, nameOf, extract);
      && (forall name :: name in order <==> FirstExtraction(wavLocs, nameOf, extract, name) >= 0)
      && (forall p, q :: 0 <= p < q < |order| ==>
            FirstExtraction(wavLocs, nameOf, extract, order[p]) < FirstExtraction(wavLocs, nameOf, extract, order[q]))
  {
    if wavLocs != [] {
      var init := wavLocs[..|wavLocs| - 1];
      FeatureOrderByFirstExtraction(init, nameOf, extract);
      var before := FeatureOrder(init, nameOf, extract);
      var order := FeatureOrder(wavLocs, nameOf, extract);
      forall name | name in before
        ensures FirstExtraction(wavLocs, nameOf, extract, name) == FirstExtraction(init, nameOf, extract, name)
      {
      }
    }
  }

  /** The key order holds exactly the keys of `feature_dict`. */
  lemma {:induction false} FeatureOrderKeys(wavLocs: seq<string>, firstNFrames: int, nameOf: string -> Result<string, NamingError>,
                                            extract: string -> Option<Features>, name: string)
    requires Extracts(extract, wavLocs)
    requires FeatureDict(wavLocs, firstNFrames, nameOf, extract).Success?
    ensures name in FeatureOrder(wavLocs, nameOf, extract) <==> name in FeatureDict(wavLocs, firstNFrames, nameOf, extract).value
  {
    if wavLocs != [] {
      var init := wavLocs[..|wavLocs| - 1];
      ExtractsPrefix(extract, wavLocs, |wavLocs| - 1);
      FeatureOrderKeys(init, firstNFrames, nameOf, extract, name);
    }
  }

  /**
   * `get_features_frame` up to the data frame: the loop over `wav_locs`,
   * naming each sample and keeping the features of those whose extraction
   * succeeds; `order` is the dict's key order, which becomes the order of
   * the data frame's columns.
   */
  method GetFeatureDict(wavLocs: seq<string>, firstNFrames: int, includeParentDir: bool, extract: string -> Option<Features>)
    returns (r: Result<map<string, seq<real>>, NamingError>, order: seq<string>)
    requires Extracts(extract, wavLocs)
    ensures r == FeatureDict(wavLocs, firstNFrames, Naming(includeParentDir), extract)
    ensures r.Success? ==> order == FeatureOrder(wavLocs, Naming(includeParentDir), extract)
  {
    var featureDict: map<string, seq<real>> := map[];
    order := [];
    for i := 0 to |wavLocs|
      invariant Extracts(extract, wavLocs[..i])
      invariant FeatureDict(wavLocs[..i], firstNFrames, Naming(includeParentDir), extract) == Success(featureDict)
      invariant order == FeatureOrder(wavLocs[..i], Naming(includeParentDir), extract)
    {
      var w := wavLocs[i];
      assert wavLocs[..i + 1][..i] == wavLocs[..i];
      ExtractsPrefix(extract, wavLocs, i + 1);
      var name := SampleName(w, includeParentDir);
      if name.Failure? {
        assert FeatureDict(wavLocs[..i + 1], firstNFrames, Naming(includeParentDir), extract) == Failure(name.error);
        FeatureDictFailureStops(wavLocs, firstNFrames, Naming(includeParentDir), extract, i + 1);
        return Failure(name.error), order;
      }
      var x := extract(w);
      if x.Some? {
        FeatureOrderKeys(wavLocs[..i], firstNFrames, Naming(includeParentDir), extract, name.value);
        // a new key goes to the end of the dict's order, an existing one keeps its place
        if name.value !in featureDict {
          order := order + [name.value];
        }
        featureDict := featureDict[name.value := FlattenNFrames(x.value.matrix, x.value.frames, firstNFrames)];
      }
    }
    assert wavLocs[..|wavLocs|] == wavLocs;
    r := Success(featureDict);
  }

  /** A failure after the first `n` paths is the failure of the whole run. */
  lemma {:induction false} FeatureDictFailureStops(wavLocs: seq<string>, firstNFrames: int, nameOf: string -> Result<string, NamingError>,
                                                   extract: string -> Option<Features>, n: nat)
    requires Extracts(extract, wavLocs) && n <= |wavLocs|
    requires Extracts(extract, wavLocs[..n])
    requires FeatureDict(wavLocs[..n], firstNFrames, nameOf, extract).Failure?
    ensures FeatureDict(wavLocs, firstNFrames, nameOf, extract) == FeatureDict(wavLocs[..n], firstNFrames, nameOf, extract)
    decreases |wavLocs| - n
  {
    if n < |wavLocs| {
      var init := wavLocs[..|wavLocs| - 1];
      ExtractsPrefix(extract, wavLocs, |wavLocs| - 1);
      assert init[..n] == wavLocs[..n];
      FeatureDictFailureStops(init, firstNFrames, nameOf, extract, n);
    } else {
      assert wavLocs[..n] == wavLocs;
    }
  }

  // ----- numbered copies in leaf order -----

  /** The manifest written next to the numbered copies. */
  const MANIFEST: string := "original_filenames.txt"

  /** `str(i).zfill(5) + '.wav'`. */
  function OutName(i: nat): string {
    Text.ZFill(Text.NatToString(i), 5) + ".wav"
  }

  /** Output names are distinct, and the digits before ".wav" read back as the number. */
  lemma OutNameNumbers(i: nat, j: nat)
    ensures |OutName(i)| >= 9
    ensures Text.AllDigits(OutName(i)[..|OutName(i)| - 4]) && Text.DecimalValue(OutName(i)[..|OutName(i)| - 4]) == i
    ensures OutName(i) == OutName(j) ==> i == j
  {
    Text.ZFillShape(Text.NatToString(i), 5);
    Text.ZFillRoundTrip(i, 5);
    assert OutName(i)[..|OutName(i)| - 4] == Text.ZFill(Text.NatToString(i), 5);
    if OutName(i) == OutName(j) {
      Text.ZFillShape(Text.NatToString(j), 5);
      assert OutName(j)[..|OutName(j)| - 4] == Text.ZFill(Text.NatToString(j), 5);
      Text.ZFillInjective(i, j, 5);
    }
  }

  /** Copies `i` and `j` go to different files of the output directory unless `i == j`. */
  lemma OutPathsDistinct(outdir: string, i: nat, j: nat)
    requires Paths.PathJoin(outdir, OutName(i)) == Paths.PathJoin(outdir, OutName(j))
    ensures i == j
  {
    Text.ZFillRoundTrip(i, 5);
    Text.ZFillRoundTrip(j, 5);
    Text.ZFillShape(Text.NatToString(i), 5);
    Text.ZFillShape(Text.NatToString(j), 5);
    assert Text.IsDigit(OutName(i)[0]) && Text.IsDigit(OutName(j)[0]);
    Paths.PathJoinInjective(outdir, OutName(i), OutName(j));
    OutNameNumbers(i, j);
  }

  /**
   * `save_ordered_wav_copies(parent_dir, list_of_dir_wavs, outdir)`: writes
   * one manifest line per sample, then copies sample `i` to the `i`-th
   * numbered file, so that line `i` of the manifest names the source of
   * copy `i` and no two copies share a destination.
   */
  method SaveOrderedWavCopies(parentDir: string, listOfDirWavs: seq<string>, outdir: string)
    returns (manifest: string, lines: seq<string>, copies: seq<Materializer.Copy>)
    ensures manifest == Paths.PathJoin(outdir, MANIFEST)
    ensures |lines| == |listOfDirWavs| && |copies| == |listOfDirWavs|
    ensures forall i :: 0 <= i < |listOfDirWavs| ==> lines[i] == Paths.PathJoin(parentDir, listOfDirWavs[i]) + "\n"
    ensures forall i :: 0 <= i < |listOfDirWavs| ==> copies[i].destination == Paths.PathJoin(outdir, OutName(i))
    ensures forall i :: 0 <= i < |listOfDirWavs| ==> lines[i] == copies[i].source + "\n"
    ensures forall i, j :: 0 <= i < j < |copies| ==> copies[i].destination != copies[j].destination
  {
    manifest := Paths.PathJoin(outdir, MANIFEST);
    lines := [];
    for k := 0 to |listOfDirWavs|
      invariant |lines| == k
      invariant forall i :: 0 <= i < k ==> lines[i] == Paths.PathJoin(parentDir, listOfDirWavs[i]) + "\n"
    {
      lines := lines + [Paths.PathJoin(parentDir, listOfDirWavs[k]) + "\n"];
    }
    copies := [];
    for k := 0 to |listOfDirWavs|
      invariant |copies| == k
      invariant forall i :: 0 <= i < k ==>
        copies[i] == Materializer.Copy(Paths.PathJoin(parentDir, listOfDirWavs[i]), Paths.PathJoin(outdir, OutName(i)))
    {
      var outFilename := OutName(k);
      copies := copies + [Materializer.Copy(Paths.PathJoin(parentDir, listOfDirWavs[k]), Paths.PathJoin(outdir, outFilename))];
    }
    forall i, j | 0 <= i < j < |copies|
      ensures copies[i].destination != copies[j].destination
    {
      if copies[i].destination == copies[j].destination {
        OutPathsDistinct(outdir, i, j);
      }
    }
  }
}

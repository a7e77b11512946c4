/**
 * The cluster materializer `save_clusters_into_dirs` (get_clusters.py):
 * inverts the dendrogram's leaf order, maps every sample index to a file of
 * the sorted listing, and copies each sample into the directory named after
 * its zero-padded cluster label.
 *
 * `leaves_list` is not modelled: the leaf order `ll` is a parameter, and what
 * is proved about a real leaf order assumes it is a permutation. The sorted
 * directory listing is the parameter `files`; the copies are returned as a
 * list of (source, destination directory) copies in the order they are made.
 */
module Materializer {
  import opened Wrappers
  import Text
  import Paths
  import Bisection

  /**
   * One `shutil.copy`: `destination` is the cluster directory for
   * `save_clusters_into_dirs` and the full output file path for
   * `save_ordered_wav_copies`.
   */
  datatype Copy = Copy(source: string, destination: string)

  datatype MaterializeError =
    | MissingLeaf(position: int)     // a listing position the leaf order never names (KeyError, line 55)
    | EmptyMembership                // maximum of an empty membership vector (ValueError, line 57)
    | MissingSample(sample: int)     // a clustered sample with no file (KeyError, line 63)

  predicate Injective(ll: seq<int>) {
    forall a, b :: 0 <= a < b < |ll| ==> ll[a] != ll[b]
  }

  /** `ll` lists each of `0 .. |ll| - 1` exactly once. */
  predicate IsPermutation(ll: seq<int>) {
    && Injective(ll)
    && (forall k :: 0 <= k < |ll| ==> 0 <= ll[k] < |ll|)
    && (forall v :: 0 <= v < |ll| ==> v in ll)
  }

  /** `forward = {i: v for i, v in enumerate(ll)}`. */
  function Forward(ll: seq<int>): map<int, int> {
    map i | 0 <= i < |ll| :: ll[i]
  }

  /**
   * `reverse = {v: k for k, v in forward.items()}`: the items of `forward`
   * come in position order, so a value listed twice keeps its last position.
   */
  function Reverse(ll: seq<int>): map<int, int> {
    if ll == [] then map[] else Reverse(ll[..|ll| - 1])[ll[|ll| - 1] := |ll| - 1]
  }

  /**
   * `reverse` maps exactly the values of `ll`, each to its last position, and
   * so never maps two values to one position.
   */
  lemma {:induction false} ReverseMapsLastPositions(ll: seq<int>)
    ensures Reverse(ll).Keys == set k | 0 <= k < |ll| :: ll[k]
    ensures forall v :: v in Reverse(ll) ==>
      0 <= Reverse(ll)[v] < |ll| && ll[Reverse(ll)[v]] == v
      && forall k :: Reverse(ll)[v] < k < |ll| ==> ll[k] != v
    ensures forall u, v :: u in Reverse(ll) && v in Reverse(ll) && u != v ==> Reverse(ll)[u] != Reverse(ll)[v]
  {
    if ll != [] {
      var init := ll[..|ll| - 1];
      ReverseMapsLastPositions(init);
      assert forall k :: 0 <= k < |init| ==> init[k] == ll[k];
      assert (set k | 0 <= k < |ll| :: ll[k]) == (set k | 0 <= k < |init| :: init[k]) + {ll[|ll| - 1]};
    }
  }

  /** For a one-to-one leaf order, `reverse` and `forward` undo each other. */
  lemma ReverseInvertsForward(ll: seq<int>)
    requires Injective(ll)
    ensures forall k :: 0 <= k < |ll| ==> ll[k] in Reverse(ll) && Reverse(ll)[ll[k]] == k
    ensures forall v :: v in Reverse(ll) ==> Reverse(ll)[v] in Forward(ll) && Forward(ll)[Reverse(ll)[v]] == v
  {
    ReverseMapsLastPositions(ll);
    forall k | 0 <= k < |ll|
      ensures ll[k] in Reverse(ll) && Reverse(ll)[ll[k]] == k
    {
      assert ll[k] in set j | 0 <= j < |ll| :: ll[j];
    }
  }

  /**
   * `wav_dict = {reverse[i]: f for i, f in enumerate(files)}`; a position
   * that `reverse` lacks raises before the dictionary is complete.
   */
  function SampleFiles(reverse: map<int, int>, files: seq<string>): Result<map<int, string>, MaterializeError> {
    if files == [] then Success(map[])
    else
      match SampleFiles(reverse, files[..|files| - 1])
      case Failure(e) => Failure(e)
      case Success(wd) =>
        var i := |files| - 1;
        if i !in reverse then Failure(MissingLeaf(i)) else Success(wd[reverse[i] := files[i]])
  }

  /**
   * The sample map fails at the first listing position `reverse` lacks;
   * otherwise its keys are the images of the positions and, when `reverse`
   * is one-to-one, every position's image maps to that position's file.
   */
  lemma {:induction false} SampleFilesShape(reverse: map<int, int>, files: seq<string>)
    ensures SampleFiles(reverse, files).Success? <==> forall i :: 0 <= i < |files| ==> i in reverse
    ensures SampleFiles(reverse, files).Failure? ==>
      exists i :: 0 <= i < |files| && i !in reverse && SampleFiles(reverse, files).error == MissingLeaf(i) &&
        forall j :: 0 <= j < i ==> j in reverse
    ensures SampleFiles(reverse, files).Success? ==>
      SampleFiles(reverse, files).value.Keys == set i | 0 <= i < |files| :: reverse[i]
    ensures (SampleFiles(reverse, files).Success? &&
               forall u, v :: u in reverse && v in reverse && u != v ==> reverse[u] != reverse[v]) ==>
      forall i :: 0 <= i < |files| ==> SampleFiles(reverse, files).value[reverse[i]] == files[i]
  {
    if files != [] {
      var init := files[..|files| - 1];
      SampleFilesShape(reverse, init);
      var i := |files| - 1;
      if SampleFiles(reverse, init).Success? && i in reverse {
        assert (set j | 0 <= j < |files| :: reverse[j]) == (set j | 0 <= j < |init| :: reverse[j]) + {reverse[i]};
      }
    }
  }

  /** For a permutation, `reverse` maps every position to the sample listed there, and back. */
  lemma ReverseOfPermutation(ll: seq<int>)
    requires IsPermutation(ll)
    ensures forall i :: 0 <= i < |ll| ==> i in Reverse(ll) && 0 <= Reverse(ll)[i] < |ll|
    ensures forall k :: 0 <= k < |ll| ==> Reverse(ll)[ll[k]] == k
    ensures forall u, v :: u in Reverse(ll) && v in Reverse(ll) && u != v ==> Reverse(ll)[u] != Reverse(ll)[v]
  {
    ReverseMapsLastPositions(ll);
    ReverseInvertsForward(ll);
    forall i | 0 <= i < |ll|
      ensures i in Reverse(ll)
    {
      assert i in ll;
      var k :| 0 <= k < |ll| && ll[k] == i;
    }
  }

  /**
   * With a leaf order that is a permutation of the samples and a listing of
   * as many files, every sample index has a file, and sample `k` gets the
   * file at the position `ll[k]` of the listing.
   */
  lemma SampleFilesFollowLeafOrder(ll: seq<int>, files: seq<string>)
    requires IsPermutation(ll) && |files| == |ll|
    ensures SampleFiles(Reverse(ll), files).Success?
    ensures forall k :: k in SampleFiles(Reverse(ll), files).value <==> 0 <= k < |ll|
    ensures forall k :: 0 <= k < |ll| ==> SampleFiles(Reverse(ll), files).value[k] == files[ll[k]]
  {
    var reverse := Reverse(ll);
    ReverseOfPermutation(ll);
    SampleFilesShape(reverse, files);
    var wd := SampleFiles(reverse, files).value;
    forall k | 0 <= k < |ll|
      ensures k in wd && wd[k] == files[ll[k]]
    {
      assert reverse[ll[k]] == k;
    }
  }

  /**
   * The listing is leaf-ordered, so sample `k`'s own file sits at position
   * `reverse[k]`; keying by `reverse` hands sample `k` the file at `ll[k]`
   * instead. With distinct file names the two agree exactly where the leaf
   * order sends `k` to the same place as its inverse.
   */
  lemma LeafOrderMismatch(ll: seq<int>, files: seq<string>, k: int)
    requires IsPermutation(ll) && |files| == |ll| && 0 <= k < |ll|
    requires forall i, j :: 0 <= i < j < |files| ==> files[i] != files[j]
    ensures k in Reverse(ll) && 0 <= Reverse(ll)[k] < |files|
    ensures SampleFiles(Reverse(ll), files).Success? && k in SampleFiles(Reverse(ll), files).value
    ensures SampleFiles(Reverse(ll), files).value[k] == files[Reverse(ll)[k]] <==> ll[k] == Reverse(ll)[k]
  {
    SampleFilesFollowLeafOrder(ll, files);
    ReverseOfPermutation(ll);
    var a, b := ll[k], Reverse(ll)[k];
    if a != b {
      if a < b {
        assert files[a] != files[b];
      } else {
        assert files[b] != files[a];
      }
    }
  }

  /** For the leaf order `[1, 2, 0]` sample 0 is given the file of sample 1, not its own. */
  lemma LeafOrderMismatchExample(ll: seq<int>)
    requires ll == [1, 2, 0]
    ensures IsPermutation(ll) && Reverse(ll)[0] == 2
    ensures SampleFiles(Reverse(ll), ["a", "b", "c"]) == Success(map[0 := "b", 1 := "c", 2 := "a"])
  {
    assert ll[..1] == [1] && ll[..2] == [1, 2] && ll[..2][..1] == [1];
    assert Reverse(ll[..1]) == map[1 := 0];
    assert Reverse(ll[..2]) == map[1 := 0, 2 := 1];
    var reverse := map[1 := 0, 2 := 1, 0 := 2];
    assert Reverse(ll) == reverse;
    var files := ["a", "b", "c"];
    assert files[..1] == ["a"] && files[..2] == ["a", "b"] && files[..2][..1] == ["a"];
    assert SampleFiles(reverse, files[..1]) == Success(map[2 := "a"]);
    assert SampleFiles(reverse, files[..2]) == Success(map[2 := "a", 0 := "b"]);
    assert SampleFiles(reverse, files) == Success(map[2 := "a", 0 := "b", 1 := "c"]);
    assert map[2 := "a", 0 := "b", 1 := "c"] == map[0 := "b", 1 := "c", 2 := "a"];
  }

  /**
   * The sample map the leaf-ordered listing calls for,
   * `{ll[i]: f for i, f in enumerate(files)}`: keyed by `forward` instead of
   * `reverse`, it gives every sample its own file, the one at its leaf
   * position `reverse[k]`.
   */
  lemma LeafOrderedSampleFiles(ll: seq<int>, files: seq<string>)
    requires IsPermutation(ll) && |files| == |ll|
    ensures SampleFiles(Forward(ll), files).Success?
    ensures forall k :: k in SampleFiles(Forward(ll), files).value <==> 0 <= k < |ll|
    ensures forall k :: 0 <= k < |ll| ==>
      k in Reverse(ll) && 0 <= Reverse(ll)[k] < |ll| && SampleFiles(Forward(ll), files).value[k] == files[Reverse(ll)[k]]
  {
    var forward := Forward(ll);
    ReverseOfPermutation(ll);
    ReverseInvertsForward(ll);
    SampleFilesShape(forward, files);
    var wd := SampleFiles(forward, files).value;
    forall k | 0 <= k < |ll|
      ensures k in wd && wd[k] == files[Reverse(ll)[k]]
    {
      assert forward[Reverse(ll)[k]] == k;
    }
    forall k | k in wd
      ensures 0 <= k < |ll|
    {
      var i :| 0 <= i < |files| && forward[i] == k;
    }
  }

  /** `os.path.join(data_dir, 'clusters', 'cluster_' + str(c).zfill(4))`. */
  function ClusterDir(dataDir: string, c: int): string {
    Paths.PathJoin(Paths.PathJoin(dataDir, "clusters"), "cluster_" + Text.ZFill(Text.IntToString(c), 4))
  }

  /** The naming of cluster directories under `dataDir`, as a function of the label. */
  function ClusterDirs(dataDir: string): int -> string {
    c => ClusterDir(dataDir, c)
  }

  /** Different non-negative cluster labels get different directories. */
  lemma ClusterDirInjective(dataDir: string, c1: nat, c2: nat)
    requires ClusterDir(dataDir, c1) == ClusterDir(dataDir, c2)
    ensures c1 == c2
  {
    var base := Paths.PathJoin(dataDir, "clusters");
    var n1 := "cluster_" + Text.ZFill(Text.NatToString(c1), 4);
    var n2 := "cluster_" + Text.ZFill(Text.NatToString(c2), 4);
    Paths.PathJoinInjective(base, n1, n2);
    assert n1[8..] == Text.ZFill(Text.NatToString(c1), 4);
    assert n2[8..] == Text.ZFill(Text.NatToString(c2), 4);
    Text.ZFillInjective(c1, c2, 4);
  }

  /** `np.where(cm == c)`, restricted to the first `n` samples: the indices labelled `c`, ascending. */
  function Members(cm: seq<int>, c: int, n: nat): (s: seq<int>)
    requires n <= |cm|
    ensures forall k :: 0 <= k < |s| ==> 0 <= s[k] < n
  {
    if n == 0 then []
    else Members(cm, c, n - 1) + (if cm[n - 1] == c then [n - 1] else [])
  }

  /** The samples in the order they are copied: cluster 1's members, then cluster 2's, up to `c`. */
  function CopyOrder(cm: seq<int>, c: int): (s: seq<int>)
    ensures forall k :: 0 <= k < |s| ==> 0 <= s[k] < |cm|
  {
    if c <= 0 then [] else CopyOrder(cm, c - 1) + Members(cm, c, |cm|)
  }

  /**
   * The copies made for the samples in `order`, each into the directory
   * `dirOf` names for its label, stopping at the first sample with no file.
   */
  function Distribute(dirOf: int -> string, wd: map<int, string>, cm: seq<int>, order: seq<int>): Result<seq<Copy>, MaterializeError>
    requires forall k :: 0 <= k < |order| ==> 0 <= order[k] < |cm|
  {
    if order == [] then Success([])
    else
      match Distribute(dirOf, wd, cm, order[..|order| - 1])
      case Failure(e) => Failure(e)
      case Success(copies) =>
        var i := order[|order| - 1];
        if i !in wd then Failure(MissingSample(i))
        else Success(copies + [Copy(wd[i], dirOf(cm[i]))])
  }

  /**
   * Distributing succeeds exactly when every listed sample has a file, and
   * then copy `k` takes sample `order[k]`'s file into its cluster's
   * directory.
   */
  lemma {:induction false} DistributeShape(dirOf: int -> string, wd: map<int, string>, cm: seq<int>, order: seq<int>)
    requires forall k :: 0 <= k < |order| ==> 0 <= order[k] < |cm|
    ensures Distribute(dirOf, wd, cm, order).Success? <==> forall k :: 0 <= k < |order| ==> order[k] in wd
    ensures Distribute(dirOf, wd, cm, order).Success? ==>
      var copies := Distribute(dirOf, wd, cm, order).value;
      |copies| == |order| && forall k :: 0 <= k < |order| ==>
        copies[k] == Copy(wd[order[k]], dirOf(cm[order[k]]))
  {
    if order != [] {
      var init := order[..|order| - 1];
      var i := order[|order| - 1];
      DistributeShape(dirOf, wd, cm, init);
      assert forall k :: 0 <= k < |init| ==> init[k] == order[k];
      var prev := Distribute(dirOf, wd, cm, init);
      if prev.Success? && i in wd {
        var copies := prev.value + [Copy(wd[i], dirOf(cm[i]))];
        assert Distribute(dirOf, wd, cm, order) == Success(copies);
        assert forall k :: 0 <= k < |init| ==> copies[k] == prev.value[k];
      }
    }
  }

  /** Otherwise it fails at the first sample in `order` that has no file. */
  lemma {:induction false} DistributeFailsAtFirstMissing(dirOf: int -> string, wd: map<int, string>, cm: seq<int>, order: seq<int>)
    requires forall k :: 0 <= k < |order| ==> 0 <= order[k] < |cm|
    ensures Distribute(dirOf, wd, cm, order).Failure? ==>
      exists k :: 0 <= k < |order| && order[k] !in wd &&
        Distribute(dirOf, wd, cm, order).error == MissingSample(order[k]) &&
        forall j :: 0 <= j < k ==> order[j] in wd
  {
    if order != [] {
      var init := order[..|order| - 1];
      var i := order[|order| - 1];
      DistributeFailsAtFirstMissing(dirOf, wd, cm, init);
      DistributeShape(dirOf, wd, cm, init);
      assert forall k :: 0 <= k < |init| ==> init[k] == order[k];
      var prev := Distribute(dirOf, wd, cm, init);
      if prev.Failure? {
        var k :| 0 <= k < |init| && init[k] !in wd && prev.error == MissingSample(init[k])
          && forall j :: 0 <= j < k ==> init[j] in wd;
        assert order[k] == init[k];
      } else if i !in wd {
        assert order[|order| - 1] == i;
      }
    }
  }

  /** A failure on a prefix of the copy order is the failure of the whole. */
  lemma {:induction false} DistributeFailureStops(dirOf: int -> string, wd: map<int, string>, cm: seq<int>, s: seq<int>, t: seq<int>)
    requires forall k :: 0 <= k < |t| ==> 0 <= t[k] < |cm|
    requires s <= t
    requires Distribute(dirOf, wd, cm, s).Failure?
    ensures Distribute(dirOf, wd, cm, t) == Distribute(dirOf, wd, cm, s)
    decreases |t|
  {
    if |t| > |s| {
      var init := t[..|t| - 1];
      assert s <= init;
      DistributeFailureStops(dirOf, wd, cm, s, init);
      assert t != [] && Distribute(dirOf, wd, cm, init).Failure?;
    } else {
      assert s == t;
    }
  }

  lemma {:induction false} MembersPrefix(cm: seq<int>, c: int, i: nat, j: nat)
    requires i <= j <= |cm|
    ensures Members(cm, c, i) <= Members(cm, c, j)
    decreases j
  {
    if i < j {
      MembersPrefix(cm, c, i, j - 1);
    }
  }

  lemma {:induction false} CopyOrderPrefix(cm: seq<int>, c: int, m: int)
    requires c <= m
    ensures CopyOrder(cm, c) <= CopyOrder(cm, m)
    decreases m - c
  {
    if c < m {
      CopyOrderPrefix(cm, c, m - 1);
    }
  }

  lemma {:induction false} MembersLabels(cm: seq<int>, c: int, n: nat)
    requires n <= |cm|
    ensures forall k :: 0 <= k < |Members(cm, c, n)| ==> cm[Members(cm, c, n)[k]] == c
  {
    if n > 0 {
      MembersLabels(cm, c, n - 1);
    }
  }

  /** Only samples labelled `1 .. c` are in the copy order up to `c`. */
  lemma {:induction false} CopyOrderLabels(cm: seq<int>, c: int)
    ensures forall k :: 0 <= k < |CopyOrder(cm, c)| ==> 1 <= cm[CopyOrder(cm, c)[k]] <= c
    decreases if c <= 0 then 0 else c
  {
    if c > 0 {
      CopyOrderLabels(cm, c - 1);
      MembersLabels(cm, c, |cm|);
    }
  }

  lemma PrefixChain<T>(a: seq<T>, b: seq<T>, b': seq<T>, t: seq<T>)
    requires b <= b' && a + b' <= t
    ensures a + b <= t
  {
    assert (a + b) == (a + b')[..|a + b|];
  }

  /** How many times `x` occurs in `s`. */
  function Count(s: seq<int>, x: int): nat {
    if s == [] then 0 else Count(s[..|s| - 1], x) + (if s[|s| - 1] == x then 1 else 0)
  }

  /** Occurrences in a concatenation add up. */
  lemma {:induction false} CountConcat(a: seq<int>, b: seq<int>, x: int)
    ensures Count(a + b, x) == Count(a, x) + Count(b, x)
    decreases |b|
  {
    if b == [] {
      assert a + b == a;
    } else {
      var init := b[..|b| - 1];
      assert (a + b)[..|a + b| - 1] == a + init;
      CountConcat(a, init, x);
    }
  }

  /** `Count` is the multiplicity in the multiset of the sequence. */
  lemma {:induction false} CountIsMultiplicity(s: seq<int>, x: int)
    ensures multiset(s)[x] == Count(s, x)
  {
    if s != [] {
      var init := s[..|s| - 1];
      CountIsMultiplicity(init, x);
      assert s == init + [s[|s| - 1]];
      assert multiset(s) == multiset(init) + multiset{s[|s| - 1]};
    }
  }

  /** `Members` counts sample `i` once when it carries label `c` and `i < n`, never otherwise. */
  lemma {:induction false} MembersCount(cm: seq<int>, c: int, n: nat, i: int)
    requires n <= |cm|
    ensures Count(Members(cm, c, n), i) == if 0 <= i < n && cm[i] == c then 1 else 0
  {
    if n > 0 {
      var prev := Members(cm, c, n - 1);
      var last: seq<int> := if cm[n - 1] == c then [n - 1] else [];
      MembersCount(cm, c, n - 1, i);
      assert Members(cm, c, n) == prev + last;
      CountConcat(prev, last, i);
      assert Count(last, i) == if i == n - 1 && cm[n - 1] == c then 1 else 0;
    }
  }

  /** Every sample labelled `1 .. c` is in the copy order exactly once; no other sample is. */
  lemma {:induction false} CopyOrderExactlyOnce(cm: seq<int>, c: int, i: int)
    ensures Count(CopyOrder(cm, c), i) == if 0 <= i < |cm| && 1 <= cm[i] <= c then 1 else 0
    decreases if c <= 0 then 0 else c
  {
    if c > 0 {
      var prev, members := CopyOrder(cm, c - 1), Members(cm, c, |cm|);
      CopyOrderExactlyOnce(cm, c - 1, i);
      MembersCount(cm, c, |cm|, i);
      assert CopyOrder(cm, c) == prev + members;
      CountConcat(prev, members, i);
    }
  }

  function Range(n: nat): (s: seq<int>)
    ensures |s| == n
  {
    if n == 0 then [] else Range(n - 1) + [n - 1]
  }

  lemma {:induction false} RangeCount(n: nat, i: int)
    ensures Count(Range(n), i) == if 0 <= i < n then 1 else 0
  {
    if n > 0 {
      RangeCount(n - 1, i);
      CountConcat(Range(n - 1), [n - 1], i);
    }
  }

  /**
   * When every label is positive, the copy order up to the largest label is
   * a permutation of all the sample indices: no sample is dropped or copied
   * twice, so there are as many copies as samples.
   */
  lemma CopyOrderIsPermutation(cm: seq<int>)
    requires |cm| > 0 && forall i :: 0 <= i < |cm| ==> cm[i] >= 1
    ensures multiset(CopyOrder(cm, Bisection.MaxLabel(cm))) == multiset(Range(|cm|))
    ensures |CopyOrder(cm, Bisection.MaxLabel(cm))| == |cm|
  {
    var m := Bisection.MaxLabel(cm);
    Bisection.MaxLabelIsMaximum(cm);
    forall i
      ensures multiset(CopyOrder(cm, m))[i] == multiset(Range(|cm|))[i]
    {
      CopyOrderExactlyOnce(cm, m, i);
      RangeCount(|cm|, i);
      CountIsMultiplicity(CopyOrder(cm, m), i);
      CountIsMultiplicity(Range(|cm|), i);
    }
    assert multiset(CopyOrder(cm, m)) == multiset(Range(|cm|));
    assert |multiset(CopyOrder(cm, m))| == |CopyOrder(cm, m)|;
  }

  /**
   * The copies into the directory of label `c` are exactly the copies of the
   * samples labelled `c`.
   */
  lemma DirectoryHoldsOnlyItsCluster(dataDir: string, wd: map<int, string>, cm: seq<int>, order: seq<int>, c: nat, k: nat)
    requires forall j :: 0 <= j < |order| ==> 0 <= order[j] < |cm| && cm[order[j]] >= 0
    requires Distribute(ClusterDirs(dataDir), wd, cm, order).Success? && k < |order|
    ensures k < |Distribute(ClusterDirs(dataDir), wd, cm, order).value|
    ensures Distribute(ClusterDirs(dataDir), wd, cm, order).value[k].destination == ClusterDir(dataDir, c)
      <==> cm[order[k]] == c
  {
    DistributeShape(ClusterDirs(dataDir), wd, cm, order);
    var copies := Distribute(ClusterDirs(dataDir), wd, cm, order).value;
    assert copies[k].destination == ClusterDir(dataDir, cm[order[k]]);
    if copies[k].destination == ClusterDir(dataDir, c) {
      ClusterDirInjective(dataDir, cm[order[k]], c);
    }
  }

  /**
   * The directories `os.makedirs` makes sure exist once the outer loop has
   * reached label `n`: one per label `1 .. n`, in label order, whether or not
   * any sample carries that label.
   */
  function MadeDirs(dirOf: int -> string, n: int): (s: seq<string>)
    ensures |s| == if n <= 0 then 0 else n
  {
    if n <= 0 then [] else MadeDirs(dirOf, n - 1) + [dirOf(n)]
  }

  /** Label `c` of `1 .. n` has its directory at position `c - 1`, so every label gets one. */
  lemma {:induction false} MadeDirsAt(dirOf: int -> string, n: int, c: int)
    requires 1 <= c <= n
    ensures MadeDirs(dirOf, n)[c - 1] == dirOf(c)
  {
    if c < n {
      MadeDirsAt(dirOf, n - 1, c);
    }
  }

  /**
   * A label in `1 .. max` that no sample carries still gets its directory,
   * but no copy lands in it: the directory stays empty.
   */
  lemma EmptyClusterDirectory(dataDir: string, wd: map<int, string>, cm: seq<int>, maxLabel: int, c: nat)
    requires 1 <= c <= maxLabel
    requires forall i :: 0 <= i < |cm| ==> cm[i] >= 0 && cm[i] != c
    requires Distribute(ClusterDirs(dataDir), wd, cm, CopyOrder(cm, maxLabel)).Success?
    ensures ClusterDir(dataDir, c) in MadeDirs(ClusterDirs(dataDir), maxLabel)
    ensures forall cp :: cp in Distribute(ClusterDirs(dataDir), wd, cm, CopyOrder(cm, maxLabel)).value ==>
      cp.destination != ClusterDir(dataDir, c)
  {
    MadeDirsAt(ClusterDirs(dataDir), maxLabel, c);
    var order := CopyOrder(cm, maxLabel);
    var copies := Distribute(ClusterDirs(dataDir), wd, cm, order).value;
    DistributeShape(ClusterDirs(dataDir), wd, cm, order);
    forall cp | cp in copies
      ensures cp.destination != ClusterDir(dataDir, c)
    {
      var k :| 0 <= k < |copies| && copies[k] == cp;
      DirectoryHoldsOnlyItsCluster(dataDir, wd, cm, order, c, k);
    }
  }

  /**
   * `save_clusters_into_dirs(data_dir, Z, cluster_membership)` with
   * `ll = leaves_list(Z)`: the copies made, and the cluster directories made
   * sure to exist. The outer loop makes a label's directory before copying
   * its samples, so the directories are those of every label up to the last
   * one it reached (`Reached`).
   */
  method SaveClustersIntoDirs(dataDir: string, ll: seq<int>, files: seq<string>, cm: seq<int>)
    returns (r: Result<seq<Copy>, MaterializeError>, dirs: seq<string>)
    ensures SampleFiles(Reverse(ll), files).Failure? ==> r == Failure(SampleFiles(Reverse(ll), files).error) && dirs == []
    ensures SampleFiles(Reverse(ll), files).Success? && cm == [] ==> r == Failure(EmptyMembership) && dirs == []
    ensures SampleFiles(Reverse(ll), files).Success? && cm != [] ==>
      r == Distribute(ClusterDirs(dataDir), SampleFiles(Reverse(ll), files).value, cm, CopyOrder(cm, Bisection.MaxLabel(cm)))
    ensures r.Success? ==> cm != [] && dirs == MadeDirs(ClusterDirs(dataDir), Bisection.MaxLabel(cm))
    ensures SampleFiles(Reverse(ll), files).Success? && cm != [] && r.Failure? ==>
      r.error.MissingSample? &&
      0 <= r.error.sample < |cm| && 1 <= cm[r.error.sample] <= Bisection.MaxLabel(cm) &&
      dirs == MadeDirs(ClusterDirs(dataDir), cm[r.error.sample])
  {
    var reverse := Reverse(ll);
    var wavDict := SampleFiles(reverse, files);
    if wavDict.Failure? {
      return Failure(wavDict.error), [];
    }
    if cm == [] {
      return Failure(EmptyMembership), [];
    }
    r := CopyClusters(ClusterDirs(dataDir), wavDict.value, cm, Bisection.MaxLabel(cm));
    if r.Failure? {
      CopyOrderFailure(ClusterDirs(dataDir), wavDict.value, cm, Bisection.MaxLabel(cm));
    }
    dirs := MadeDirs(ClusterDirs(dataDir), Reached(cm, Bisection.MaxLabel(cm), r));
  }

  /**
   * With a leaf order that is a permutation, a listing of one file per
   * sample and positive labels, every sample is copied exactly once: copy
   * `k` takes the file listed at position `ll[order[k]]` into the directory
   * of the label of sample `order[k]`, where `order` lists the samples
   * cluster by cluster.
   */
  lemma MaterializeEverySample(dataDir: string, ll: seq<int>, files: seq<string>, cm: seq<int>)
    requires IsPermutation(ll) && |files| == |ll| == |cm| && |cm| > 0
    requires forall i :: 0 <= i < |cm| ==> cm[i] >= 1
    ensures var order := CopyOrder(cm, Bisection.MaxLabel(cm));
      SampleFiles(Reverse(ll), files).Success? &&
      var r := Distribute(ClusterDirs(dataDir), SampleFiles(Reverse(ll), files).value, cm, order);
      && |order| == |cm| && multiset(order) == multiset(Range(|cm|))
      && r.Success? && |r.value| == |cm|
      && forall k :: 0 <= k < |cm| ==> r.value[k] == Copy(files[ll[order[k]]], ClusterDir(dataDir, cm[order[k]]))
  {
    var order := CopyOrder(cm, Bisection.MaxLabel(cm));
    SampleFilesFollowLeafOrder(ll, files);
    var wd := SampleFiles(Reverse(ll), files).value;
    CopyOrderIsPermutation(cm);
    DistributeShape(ClusterDirs(dataDir), wd, cm, order);
  }

  /**
   * With the sample map keyed by the leaf order, every sample is copied
   * exactly once and with its own file: copy `k` takes the file listed at
   * sample `order[k]`'s leaf position into the directory of its label.
   */
  lemma MaterializeOwnFiles(dataDir: string, ll: seq<int>, files: seq<string>, cm: seq<int>)
    requires IsPermutation(ll) && |files| == |ll| == |cm| && |cm| > 0
    requires forall i :: 0 <= i < |cm| ==> cm[i] >= 1
    ensures var order := CopyOrder(cm, Bisection.MaxLabel(cm));
      SampleFiles(Forward(ll), files).Success? &&
      var r := Distribute(ClusterDirs(dataDir), SampleFiles(Forward(ll), files).value, cm, order);
      && |order| == |cm| && multiset(order) == multiset(Range(|cm|))
      && r.Success? && |r.value| == |cm|
      && forall k :: 0 <= k < |cm| ==>
        order[k] in Reverse(ll) && 0 <= Reverse(ll)[order[k]] < |files| &&
        r.value[k] == Copy(files[Reverse(ll)[order[k]]], ClusterDir(dataDir, cm[order[k]]))
  {
    var order := CopyOrder(cm, Bisection.MaxLabel(cm));
    LeafOrderedSampleFiles(ll, files);
    var wd := SampleFiles(Forward(ll), files).value;
    CopyOrderIsPermutation(cm);
    DistributeShape(ClusterDirs(dataDir), wd, cm, order);
    var r := Distribute(ClusterDirs(dataDir), wd, cm, order);
    forall k | 0 <= k < |cm|
      ensures order[k] in Reverse(ll) && 0 <= Reverse(ll)[order[k]] < |files|
      ensures r.value[k] == Copy(files[Reverse(ll)[order[k]]], ClusterDir(dataDir, cm[order[k]]))
    {
      assert r.value[k] == Copy(wd[order[k]], ClusterDirs(dataDir)(cm[order[k]]));
    }
  }

  /** Membership `[1, 1, 2, 2, 3]` is copied cluster by cluster, which here is sample order. */
  lemma CopyOrderExample(cm: seq<int>)
    requires |cm| == 5 && cm[0] == 1 && cm[1] == 1 && cm[2] == 2 && cm[3] == 2 && cm[4] == 3
    ensures Bisection.MaxLabel(cm) == 3
    ensures CopyOrder(cm, 3) == [0, 1, 2, 3, 4]
  {
    MaxLabelExample(cm);
    MembersExample(cm);
    assert CopyOrder(cm, 1) == [0, 1];
    assert CopyOrder(cm, 2) == [0, 1] + [2, 3];
  }

  /** The members of each label of `[1, 1, 2, 2, 3]`, in index order. */
  lemma MembersExample(cm: seq<int>)
    requires |cm| == 5 && cm[0] == 1 && cm[1] == 1 && cm[2] == 2 && cm[3] == 2 && cm[4] == 3
    ensures Members(cm, 1, 5) == [0, 1] && Members(cm, 2, 5) == [2, 3] && Members(cm, 3, 5) == [4]
  {
    assert Members(cm, 1, 1) == [0];
    assert Members(cm, 1, 2) == [0, 1];
    MembersSkip(cm, 1, 2, 5);
    MembersSkip(cm, 2, 0, 2);
    assert Members(cm, 2, 3) == [2];
    assert Members(cm, 2, 4) == [2, 3];
    MembersSkip(cm, 2, 4, 5);
    MembersSkip(cm, 3, 0, 4);
    assert Members(cm, 3, 5) == [4];
  }

  /** The maximum label of `[1, 1, 2, 2, 3]` is 3. */
  lemma MaxLabelExample(cm: seq<int>)
    requires |cm| == 5 && cm[0] == 1 && cm[1] == 1 && cm[2] == 2 && cm[3] == 2 && cm[4] == 3
    ensures Bisection.MaxLabel(cm) == 3
  {
    Bisection.MaxLabelIsMaximum(cm);
    assert cm[4] <= Bisection.MaxLabel(cm);
    var i :| 0 <= i < |cm| && cm[i] == Bisection.MaxLabel(cm);
    assert cm[i] <= 3;
  }

  /** Samples without label `c` add nothing to its members. */
  lemma {:induction false} MembersSkip(cm: seq<int>, c: int, n: nat, m: nat)
    requires n <= m <= |cm|
    requires forall k :: n <= k < m ==> cm[k] != c
    ensures Members(cm, c, m) == Members(cm, c, n)
    decreases m
  {
    if n < m {
      MembersSkip(cm, c, n, m - 1);
    }
  }

  /** The identity leaf order maps every sample to the file listed at its own position. */
  lemma IdentityOrderFiles(ll: seq<int>, files: seq<string>)
    requires (forall k :: 0 <= k < |ll| ==> ll[k] == k) && |files| == |ll|
    ensures SampleFiles(Reverse(ll), files).Success?
    ensures forall k :: 0 <= k < |ll| ==> k in SampleFiles(Reverse(ll), files).value && SampleFiles(Reverse(ll), files).value[k] == files[k]
  {
    assert IsPermutation(ll) by {
      forall v | 0 <= v < |ll| ensures v in ll {
        assert ll[v] == v;
      }
    }
    SampleFilesFollowLeafOrder(ll, files);
  }

  /** Five samples copied in sample order, each into the directory of its label. */
  lemma InSampleOrder(dirOf: int -> string, wd: map<int, string>, files: seq<string>, cm: seq<int>)
    requires |files| == 5 && |cm| == 5
    requires forall k :: 0 <= k < 5 ==> k in wd && wd[k] == files[k]
    ensures Distribute(dirOf, wd, cm, [0, 1, 2, 3, 4]) == Success([
      Copy(files[0], dirOf(cm[0])), Copy(files[1], dirOf(cm[1])),
      Copy(files[2], dirOf(cm[2])), Copy(files[3], dirOf(cm[3])),
      Copy(files[4], dirOf(cm[4]))])
  {
    var order := [0, 1, 2, 3, 4];
    DistributeShape(dirOf, wd, cm, order);
    assert 0 in wd && 1 in wd && 2 in wd && 3 in wd && 4 in wd;
    assert Distribute(dirOf, wd, cm, order).Success?;
    var copies := Distribute(dirOf, wd, cm, order).value;
    assert |copies| == 5;
    assert copies[0] == Copy(files[0], dirOf(cm[0])) && copies[1] == Copy(files[1], dirOf(cm[1]));
    assert copies[2] == Copy(files[2], dirOf(cm[2])) && copies[3] == Copy(files[3], dirOf(cm[3]));
    assert copies[4] == Copy(files[4], dirOf(cm[4]));
    assert copies == [
      Copy(files[0], dirOf(cm[0])), Copy(files[1], dirOf(cm[1])),
      Copy(files[2], dirOf(cm[2])), Copy(files[3], dirOf(cm[3])),
      Copy(files[4], dirOf(cm[4]))];
  }

  /**
   * Membership `[1, 1, 2, 2, 3]` over five files in identity leaf order:
   * two copies into the directory of label 1, two into that of label 2,
   * one into that of label 3, each file into its own sample's directory.
   */
  lemma IdentityOrderExample(dirOf: int -> string, ll: seq<int>, files: seq<string>)
    requires |ll| == 5 && (forall k :: 0 <= k < 5 ==> ll[k] == k) && |files| == 5
    ensures var cm := [1, 1, 2, 2, 3];
      var wd := SampleFiles(Reverse(ll), files);
      && wd.Success?
      && Distribute(dirOf, wd.value, cm, CopyOrder(cm, Bisection.MaxLabel(cm))) == Success([
           Copy(files[0], dirOf(1)), Copy(files[1], dirOf(1)),
           Copy(files[2], dirOf(2)), Copy(files[3], dirOf(2)),
           Copy(files[4], dirOf(3))])
  {
    IdentityOrderFiles(ll, files);
    CopyOrderExample([1, 1, 2, 2, 3]);
    InSampleOrder(dirOf, SampleFiles(Reverse(ll), files).value, files, [1, 1, 2, 2, 3]);
  }

  /** One step of the inner loop: sample `i` is copied when it carries label `clusterI + 1`. */
  lemma InnerStep(dirOf: int -> string, wd: map<int, string>, cm: seq<int>, clusterI: nat, i: nat, copies: seq<Copy>)
    requires i < |cm|
    requires Distribute(dirOf, wd, cm, CopyOrder(cm, clusterI) + Members(cm, clusterI + 1, i)) == Success(copies)
    ensures var next := Distribute(dirOf, wd, cm, CopyOrder(cm, clusterI) + Members(cm, clusterI + 1, i + 1));
      && (cm[i] != clusterI + 1 ==> next == Success(copies))
      && (cm[i] == clusterI + 1 && i in wd ==> next == Success(copies + [Copy(wd[i], dirOf(clusterI + 1))]))
      && (cm[i] == clusterI + 1 && i !in wd ==> next == Failure(MissingSample(i)))
  {
    var c := clusterI + 1;
    var prefix := CopyOrder(cm, clusterI) + Members(cm, c, i);
    if cm[i] == c {
      var done := CopyOrder(cm, clusterI) + Members(cm, c, i + 1);
      assert done == prefix + [i];
      assert done[..|done| - 1] == prefix;
    } else {
      assert Members(cm, c, i + 1) == Members(cm, c, i);
    }
  }

  /** A sample of label `clusterI + 1` with no file stops the copying of that label. */
  lemma MissingStopsCluster(dirOf: int -> string, wd: map<int, string>, cm: seq<int>, clusterI: nat, i: nat)
    requires i < |cm|
    requires Distribute(dirOf, wd, cm, CopyOrder(cm, clusterI) + Members(cm, clusterI + 1, i + 1)) == Failure(MissingSample(i))
    ensures Distribute(dirOf, wd, cm, CopyOrder(cm, clusterI + 1)) == Failure(MissingSample(i))
  {
    var c := clusterI + 1;
    MembersPrefix(cm, c, i + 1, |cm|);
    assert CopyOrder(cm, c) == CopyOrder(cm, clusterI) + Members(cm, c, |cm|);
    PrefixChain(CopyOrder(cm, clusterI), Members(cm, c, i + 1), Members(cm, c, |cm|), CopyOrder(cm, c));
    DistributeFailureStops(dirOf, wd, cm, CopyOrder(cm, clusterI) + Members(cm, c, i + 1), CopyOrder(cm, c));
  }

  /** A failure while copying label `c` is the failure of the whole copy order up to `maxLabel`. */
  lemma FailureStopsCopying(dirOf: int -> string, wd: map<int, string>, cm: seq<int>, c: int, maxLabel: int)
    requires c <= maxLabel
    requires Distribute(dirOf, wd, cm, CopyOrder(cm, c)).Failure?
    ensures Distribute(dirOf, wd, cm, CopyOrder(cm, maxLabel)) == Distribute(dirOf, wd, cm, CopyOrder(cm, c))
  {
    CopyOrderPrefix(cm, c, maxLabel);
    DistributeFailureStops(dirOf, wd, cm, CopyOrder(cm, c), CopyOrder(cm, maxLabel));
  }

  /**
   * The last label the outer loop reaches: `maxLabel` when all copies are
   * made, and otherwise the label of the sample that has no file.
   */
  function Reached(cm: seq<int>, maxLabel: int, r: Result<seq<Copy>, MaterializeError>): int {
    if r.Success? then maxLabel
    else if r.error.MissingSample? && 0 <= r.error.sample < |cm| then cm[r.error.sample]
    else 0
  }

  /**
   * When copying label `c` fails after labels `1 .. c - 1` succeeded, the
   * sample with no file carries label `c`.
   */
  lemma ClusterFailure(dirOf: int -> string, wd: map<int, string>, cm: seq<int>, c: int)
    requires 1 <= c
    requires Distribute(dirOf, wd, cm, CopyOrder(cm, c - 1)).Success?
    requires Distribute(dirOf, wd, cm, CopyOrder(cm, c)).Failure?
    ensures var e := Distribute(dirOf, wd, cm, CopyOrder(cm, c)).error;
      e.MissingSample? && 0 <= e.sample < |cm| && cm[e.sample] == c
  {
    var before, members := CopyOrder(cm, c - 1), Members(cm, c, |cm|);
    var order := CopyOrder(cm, c);
    assert order == before + members;
    DistributeShape(dirOf, wd, cm, before);
    DistributeFailsAtFirstMissing(dirOf, wd, cm, order);
    var k :| 0 <= k < |order| && order[k] !in wd && Distribute(dirOf, wd, cm, order).error == MissingSample(order[k]);
    MembersLabels(cm, c, |cm|);
    assert order[k] == members[k - |before|];
  }

  /** Copying clusters `1 .. c` can only fail at a sample whose label is in `1 .. c`. */
  lemma {:induction false} CopyOrderFailure(dirOf: int -> string, wd: map<int, string>, cm: seq<int>, c: int)
    requires Distribute(dirOf, wd, cm, CopyOrder(cm, c)).Failure?
    ensures var e := Distribute(dirOf, wd, cm, CopyOrder(cm, c)).error;
      e.MissingSample? && 0 <= e.sample < |cm| && 1 <= cm[e.sample] <= c
  {
    if c > 0 {
      if Distribute(dirOf, wd, cm, CopyOrder(cm, c - 1)).Failure? {
        CopyOrderFailure(dirOf, wd, cm, c - 1);
        FailureStopsCopying(dirOf, wd, cm, c - 1, c);
      } else {
        ClusterFailure(dirOf, wd, cm, c);
      }
    }
  }

  /**
   * The loop `for cluster_i in range(cluster_membership.max())` of
   * `save_clusters_into_dirs`: for each label in turn, copy the samples
   * carrying it into that label's directory.
   */
  method CopyClusters(dirOf: int -> string, wd: map<int, string>, cm: seq<int>, maxLabel: int)
    returns (r: Result<seq<Copy>, MaterializeError>)
    ensures r == Distribute(dirOf, wd, cm, CopyOrder(cm, maxLabel))
  {
    var copies: seq<Copy> := [];
    var clusterI := 0;
    while clusterI < maxLabel
      invariant 0 <= clusterI && (clusterI == 0 || clusterI <= maxLabel)
      invariant Distribute(dirOf, wd, cm, CopyOrder(cm, clusterI)) == Success(copies)
    {
      var step := CopyCluster(dirOf, wd, cm, clusterI, copies);
      if step.Failure? {
        FailureStopsCopying(dirOf, wd, cm, clusterI + 1, maxLabel);
        return step;
      }
      copies := step.value;
      clusterI := clusterI + 1;
    }
    assert CopyOrder(cm, clusterI) == CopyOrder(cm, maxLabel);
    return Success(copies);
  }

  /** The copy order for labels `1 .. c + 1` is that of `1 .. c` followed by the members of `c + 1`. */
  lemma CopyOrderStep(cm: seq<int>, c: nat)
    ensures CopyOrder(cm, c + 1) == CopyOrder(cm, c) + Members(cm, c + 1, |cm|)
  {
  }

  /**
   * The inner loop `for i in np.where(cluster_membership == cluster_i + 1)[0]`:
   * copy the file of every sample labelled `clusterI + 1`, in index order,
   * into that label's directory, after the `copies` already made.
   */
  method CopyCluster(dirOf: int -> string, wd: map<int, string>, cm: seq<int>, clusterI: nat, copies: seq<Copy>)
    returns (r: Result<seq<Copy>, MaterializeError>)
    requires Distribute(dirOf, wd, cm, CopyOrder(cm, clusterI)) == Success(copies)
    ensures r == Distribute(dirOf, wd, cm, CopyOrder(cm, clusterI + 1))
  {
    var c := clusterI + 1;
    var clusterDir := dirOf(c);
    var made := copies;
    var i := 0;
    assert CopyOrder(cm, clusterI) + Members(cm, c, 0) == CopyOrder(cm, clusterI);
    while i < |cm|
      invariant 0 <= i <= |cm|
      invariant Distribute(dirOf, wd, cm, CopyOrder(cm, clusterI) + Members(cm, c, i)) == Success(made)
    {
      InnerStep(dirOf, wd, cm, clusterI, i, made);
      if cm[i] == c {
        if i !in wd {
          MissingStopsCluster(dirOf, wd, cm, clusterI, i);
          return Failure(MissingSample(i));
        }
        made := made + [Copy(wd[i], clusterDir)];
      }
      i := i + 1;
    }
    CopyOrderStep(cm, clusterI);
    return Success(made);
  }
}

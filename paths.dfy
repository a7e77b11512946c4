/**
 * The two pieces of POSIX path handling the workflow relies on: Python's
 * `str.split('/')` on a path and `os.path.join` of two components.
 */
module Paths {

  const SEP: char := '/'

  /** Position of the last `ch` in `s`, or -1 when `s` has none. */
  function LastIndexOf(s: string, ch: char): (k: int)
    ensures -1 <= k < |s|
  {
    if s == [] then -1
    else if s[|s| - 1] == ch then |s| - 1
    else LastIndexOf(s[..|s| - 1], ch)
  }

  /** The position found holds `ch`, and -1 means `ch` is absent. */
  lemma {:induction false} LastIndexOfFinds(s: string, ch: char)
    ensures LastIndexOf(s, ch) == -1 <==> ch !in s
    ensures LastIndexOf(s, ch) >= 0 ==> s[LastIndexOf(s, ch)] == ch
  {
    if s != [] && s[|s| - 1] != ch {
      var init := s[..|s| - 1];
      LastIndexOfFinds(init, ch);
      assert s == init + [s[|s| - 1]];
    }
  }

  /** Nothing after the position found is `ch`. */
  lemma {:induction false} LastIndexOfIsLast(s: string, ch: char)
    ensures forall j :: LastIndexOf(s, ch) < j < |s| ==> s[j] != ch
  {
    if s != [] && s[|s| - 1] != ch {
      var init := s[..|s| - 1];
      LastIndexOfIsLast(init, ch);
      assert forall j :: 0 <= j < |init| ==> init[j] == s[j];
    }
  }

  /** The separator that joins `p` to a separator-free `last` is the last one. */
  lemma {:induction false} LastIndexOfJoined(p: string, last: string)
    requires NoSeparator(last)
    ensures LastIndexOf(p + [SEP] + last, SEP) == |p|
    decreases |last|
  {
    var s := p + [SEP] + last;
    if last != [] {
      var init := last[..|last| - 1];
      assert last[|last| - 1] in last;
      assert s[..|s| - 1] == p + [SEP] + init;
      assert NoSeparator(init) by {
        assert forall j :: 0 <= j < |init| ==> init[j] == last[j];
      }
      LastIndexOfJoined(p, init);
    }
  }

  /**
   * `s.split('/')`: the pieces between separators, empty pieces included,
   * so that a string with k separators has k + 1 pieces.
   */
  function Split(s: string): (parts: seq<string>)
    ensures |parts| >= 1
    decreases |s|
  {
    var k := LastIndexOf(s, SEP);
    if k == -1 then [s] else Split(s[..k]) + [s[k + 1..]]
  }

  /** `'/'.join(parts)`. */
  function Join(parts: seq<string>): string
    requires |parts| >= 1
  {
    if |parts| == 1 then parts[0] else Join(parts[..|parts| - 1]) + [SEP] + parts[|parts| - 1]
  }

  predicate NoSeparator(s: string) {
    SEP !in s
  }

  /** No piece of a split contains the separator. */
  lemma {:induction false} SplitPiecesHaveNoSeparator(s: string)
    ensures forall i :: 0 <= i < |Split(s)| ==> NoSeparator(Split(s)[i])
    decreases |s|
  {
    var k := LastIndexOf(s, SEP);
    LastIndexOfIsLast(s, SEP);
    if k != -1 {
      SplitPiecesHaveNoSeparator(s[..k]);
      var tail := s[k + 1..];
      assert forall j :: 0 <= j < |tail| ==> tail[j] == s[k + 1 + j];
    }
  }

  /** A string is what comes before position `k`, the character at `k`, and what follows. */
  lemma Around(s: string, k: int)
    requires 0 <= k < |s|
    ensures s == s[..k] + [s[k]] + s[k + 1..]
  {
  }

  /** Joining one more piece adds a separator and the piece. */
  lemma JoinSnoc(init: seq<string>, last: string)
    requires |init| >= 1
    ensures Join(init + [last]) == Join(init) + [SEP] + last
  {
    var parts := init + [last];
    assert parts[..|parts| - 1] == init;
  }

  /** Concatenation regroups; kept apart so that `JoinLastTwo` stays cheap to verify. */
  lemma Associative(a: string, b: string, c: string)
    ensures (a + b) + c == a + (b + c)
  {
  }

  /** A join of two or more pieces ends with the last two joined, at the start or right after a separator. */
  lemma JoinLastTwo(parts: seq<string>)
    requires |parts| >= 2
    ensures Join(parts) ==
      (if |parts| == 2 then [] else Join(parts[..|parts| - 2]) + [SEP]) + (parts[|parts| - 2] + [SEP] + parts[|parts| - 1])
  {
    var init := parts[..|parts| - 1];
    var d, b := parts[|parts| - 2], parts[|parts| - 1];
    assert Join(parts) == Join(init) + [SEP] + b;
    if |parts| == 2 {
      assert Join(init) == d;
    } else {
      var init2 := parts[..|parts| - 2];
      assert init[..|init| - 1] == init2 && init[|init| - 1] == d;
      var front := Join(init2);
      assert Join(init) == front + [SEP] + d;
      Associative(front + [SEP], d, [SEP]);
      Associative(front + [SEP], d + [SEP], b);
    }
  }

  /** Joining the pieces of a split gives back the string. */
  lemma {:induction false} JoinSplit(s: string)
    ensures Join(Split(s)) == s
    decreases |s|
  {
    var k := LastIndexOf(s, SEP);
    if k != -1 {
      LastIndexOfFinds(s, SEP);
      var front, tail := s[..k], s[k + 1..];
      assert Split(s) == Split(front) + [tail];
      JoinSplit(front);
      JoinSnoc(Split(front), tail);
      Around(s, k);
    }
  }

  /** Splitting a join of separator-free pieces gives back the pieces. */
  lemma {:induction false} SplitJoin(parts: seq<string>)
    requires |parts| >= 1
    requires forall i :: 0 <= i < |parts| ==> NoSeparator(parts[i])
    ensures Split(Join(parts)) == parts
    decreases |parts|
  {
    var s := Join(parts);
    if |parts| > 1 {
      var init := parts[..|parts| - 1];
      var last := parts[|parts| - 1];
      var p := Join(init);
      assert s == p + [SEP] + last;
      LastIndexOfJoined(p, last);
      assert s[..|p|] == p;
      assert s[|p| + 1..] == last;
      assert forall i :: 0 <= i < |init| ==> init[i] == parts[i];
      SplitJoin(init);
      assert init + [last] == parts;
    } else {
      LastIndexOfFinds(s, SEP);
    }
  }

  /** The last piece of the split is what follows the last separator. */
  lemma LastPiece(s: string)
    ensures var parts := Split(s); var k := LastIndexOf(s, SEP);
      parts[|parts| - 1] == s[k + 1..]
  {
    var k := LastIndexOf(s, SEP);
    if k == -1 {
      assert s[k + 1..] == s;
    }
  }

  /** `os.path.join(a, b)`: an absolute `b` wins; otherwise one separator between them. */
  function PathJoin(a: string, b: string): string {
    if |b| > 0 && b[0] == SEP then b
    else if a == [] || a[|a| - 1] == SEP then a + b
    else a + [SEP] + b
  }

  /** Joining one directory with two relative names gives two different paths unless the names agree. */
  lemma PathJoinInjective(a: string, b1: string, b2: string)
    requires b1 == [] || b1[0] != SEP
    requires b2 == [] || b2[0] != SEP
    requires PathJoin(a, b1) == PathJoin(a, b2)
    ensures b1 == b2
  {
    var prefix := if a == [] || a[|a| - 1] == SEP then a else a + [SEP];
    assert PathJoin(a, b1) == prefix + b1 && PathJoin(a, b2) == prefix + b2;
    assert b1 == (prefix + b1)[|prefix|..];
    assert b2 == (prefix + b2)[|prefix|..];
  }
}

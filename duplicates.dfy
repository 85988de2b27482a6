/** The duplicate grouping and the report of main.cpp. Each candidate that is
    still in the list becomes an anchor in turn. Every later candidate still in
    the list is compared with it. An equal candidate is recorded as the anchor's
    duplicate and erased from the list. The report then lists, in list order,
    each remaining candidate that has duplicates, followed by those duplicates. */
module Duplicates {

  import opened Hash
  import opened FileReading
  import opened Matching

  /** The bimap of main.cpp: (anchor path, duplicate path) in insertion order. */
  type Dictionary = seq<(Path, Path)>

  function Paths(files: seq<Candidate>): (paths: seq<Path>)
    ensures |paths| == |files|
    ensures forall i :: 0 <= i < |files| ==> paths[i] == files[i].path
  {
    seq(|files|, i requires 0 <= i < |files| => files[i].path)
  }

  /** The duplicate side of the dictionary. */
  function Rights(dictionary: Dictionary): (rights: seq<Path>)
    ensures |rights| == |dictionary|
    ensures forall i :: 0 <= i < |dictionary| ==> rights[i] == dictionary[i].1
  {
    seq(|dictionary|, i requires 0 <= i < |dictionary| => dictionary[i].1)
  }

  /** The dictionary entries for a list of (anchor, duplicate) candidate pairs. */
  function PathPairs(pairs: seq<(Candidate, Candidate)>): (dictionary: Dictionary)
    ensures |dictionary| == |pairs|
    ensures forall i :: 0 <= i < |pairs| ==> dictionary[i] == (pairs[i].0.path, pairs[i].1.path)
  {
    seq(|pairs|, i requires 0 <= i < |pairs| => (pairs[i].0.path, pairs[i].1.path))
  }

  lemma PathsAppend(files: seq<Candidate>, more: seq<Candidate>)
    ensures Paths(files + more) == Paths(files) + Paths(more)
  {
    assert Paths(files + more) == Paths(files) + Paths(more);
  }

  lemma PathPairsAppend(pairs: seq<(Candidate, Candidate)>, more: seq<(Candidate, Candidate)>)
    ensures PathPairs(pairs + more) == PathPairs(pairs) + PathPairs(more)
    ensures Rights(PathPairs(pairs + more)) == Rights(PathPairs(pairs)) + Rights(PathPairs(more))
  {
    assert PathPairs(pairs + more) == PathPairs(pairs) + PathPairs(more);
    assert Rights(PathPairs(pairs + more)) == Rights(PathPairs(pairs)) + Rights(PathPairs(more));
  }

  /** No path occurs twice. */
  ghost predicate NoRepeats(paths: seq<Path>)
  {
    forall p :: multiset(paths)[p] <= 1
  }

  /** boost::bimap insertion: refused when the duplicate is already recorded,
      since the duplicate side of the bimap holds unique keys. */
  function BimapInsert(dictionary: Dictionary, entry: (Path, Path)): (after: Dictionary)
    ensures entry.1 in Rights(dictionary) ==> after == dictionary
    ensures entry.1 !in Rights(dictionary) ==> after == dictionary + [entry]
  {
    if exists i :: 0 <= i < |dictionary| && dictionary[i].1 == entry.1 then dictionary
    else dictionary + [entry]
  }

  /** The comparison the grouping loop asks about two candidates. */
  type Verdict = (Candidate, Candidate) -> bool

  /** The verdict of FilesMatcher::CheckFilesEqual with this block size and hash type. */
  ghost function SameContent(env: Env, blockSize: nat, hashType: string): Verdict
  {
    (a: Candidate, b: Candidate) => blockSize > 0 && FilesEqual(env, blockSize, hashType, a, b)
  }

  /** `same` is the verdict of FilesMatcher::CheckFilesEqual. */
  ghost predicate Decides(same: Verdict, env: Env, blockSize: nat, hashType: string)
    requires blockSize > 0
  {
    forall a: Candidate, b: Candidate {:trigger FilesEqual(env, blockSize, hashType, a, b)} ::
      same(a, b) == FilesEqual(env, blockSize, hashType, a, b)
  }

  /** One anchor's pass over the candidates after it, as a pure function: the
      candidates kept, in list order, and the (anchor, duplicate) pairs
      recorded, in the order they were found. */
  ghost function Pass(same: Verdict, anchor: Candidate, rest: seq<Candidate>)
    : (r: (seq<Candidate>, seq<(Candidate, Candidate)>))
    ensures |r.0| <= |rest|
    ensures forall c :: c in r.0 ==> c in rest && !same(anchor, c)
    ensures forall p :: p in r.1 ==> p.0 == anchor && p.1 in rest && same(anchor, p.1)
    decreases |rest|
  {
    if rest == [] then ([], [])
    else
      var front, c := rest[..|rest| - 1], rest[|rest| - 1];
      var r := Pass(same, anchor, front);
      if same(anchor, c) then (r.0, r.1 + [(anchor, c)])
      else (r.0 + [c], r.1)
  }

  /** A pass splits the candidates after the anchor: each path is either kept
      or recorded as a duplicate, exactly once. */
  lemma {:induction false} PassPartition(same: Verdict, anchor: Candidate, rest: seq<Candidate>)
    ensures var r := Pass(same, anchor, rest);
      multiset(Paths(r.0)) + multiset(Rights(PathPairs(r.1))) == multiset(Paths(rest))
    decreases |rest|
  {
    if rest != [] {
      var front, c := rest[..|rest| - 1], rest[|rest| - 1];
      assert rest == front + [c];
      PassPartition(same, anchor, front);
      var r := Pass(same, anchor, front);
      PathsAppend(front, [c]);
      assert Paths([c]) == [c.path];
      assert multiset(Paths(rest)) == multiset(Paths(front)) + multiset{c.path};
      if same(anchor, c) {
        PathPairsAppend(r.1, [(anchor, c)]);
        assert Rights(PathPairs([(anchor, c)])) == [c.path];
        assert multiset(Rights(PathPairs(r.1 + [(anchor, c)])))
            == multiset(Rights(PathPairs(r.1))) + multiset{c.path};
      } else {
        PathsAppend(r.0, [c]);
        assert multiset(Paths(r.0 + [c])) == multiset(Paths(r.0)) + multiset{c.path};
      }
    }
  }

  /** The whole grouping loop, as a pure function: the candidates left in the
      list and the pairs recorded in the dictionary. */
  ghost function Grouping(same: Verdict, files: seq<Candidate>)
    : (r: (seq<Candidate>, seq<(Candidate, Candidate)>))
    ensures forall c :: c in r.0 ==> c in files
    ensures forall p :: p in r.1 ==> p.0 in r.0 && p.1 in files && same(p.0, p.1)
    decreases |files|
  {
    if files == [] then ([], [])
    else
      var passed := Pass(same, files[0], files[1..]);
      var later := Grouping(same, passed.0);
      ([files[0]] + later.0, passed.1 + later.1)
  }

  /** The grouping splits the candidates: each path is either left in the list
      or recorded as a duplicate, exactly once. */
  lemma {:induction false} GroupingPartition(same: Verdict, files: seq<Candidate>)
    ensures var r := Grouping(same, files);
      multiset(Paths(r.0)) + multiset(Rights(PathPairs(r.1))) == multiset(Paths(files))
    decreases |files|
  {
    if files != [] {
      var anchor, rest := files[0], files[1..];
      assert files == [anchor] + rest;
      var passed := Pass(same, anchor, rest);
      PassPartition(same, anchor, rest);
      GroupingPartition(same, passed.0);
      var later := Grouping(same, passed.0);
      PathsAppend([anchor], rest);
      PathsAppend([anchor], later.0);
      PathPairsAppend(passed.1, later.1);
    }
  }

  /** One step of the grouping: the first candidate is an anchor, and the
      grouping goes on over what its pass keeps. */
  lemma GroupingStep(same: Verdict, files: seq<Candidate>)
    requires files != []
    ensures var passed := Pass(same, files[0], files[1..]);
      var later := Grouping(same, passed.0);
      Grouping(same, files) == ([files[0]] + later.0, passed.1 + later.1)
  {
  }

  /** `files` without the candidates whose paths are in `gone`, in list order. */
  function Without(files: seq<Candidate>, gone: set<Path>): (r: seq<Candidate>)
    decreases |files|
  {
    if files == [] then []
    else
      var front, c := files[..|files| - 1], files[|files| - 1];
      Without(front, gone) + (if c.path in gone then [] else [c])
  }

  lemma {:induction false} WithoutAppend(files: seq<Candidate>, more: seq<Candidate>, gone: set<Path>)
    ensures Without(files + more, gone) == Without(files, gone) + Without(more, gone)
    decreases |more|
  {
    if more != [] {
      var front, c := more[..|more| - 1], more[|more| - 1];
      assert (files + more)[..|files + more| - 1] == files + front;
      WithoutAppend(files, front, gone);
    } else {
      assert files + more == files;
    }
  }

  lemma {:induction false} WithoutNothing(files: seq<Candidate>, gone: set<Path>)
    requires forall c :: c in files ==> c.path !in gone
    ensures Without(files, gone) == files
    decreases |files|
  {
    if files != [] {
      var front, c := files[..|files| - 1], files[|files| - 1];
      forall k | k in front
        ensures k.path !in gone
      {
        assert k in files;
      }
      WithoutNothing(front, gone);
      assert c in files;
      assert files == front + [c];
    }
  }

  lemma {:induction false} WithoutTwice(files: seq<Candidate>, gone: set<Path>, more: set<Path>)
    ensures Without(Without(files, gone), more) == Without(files, gone + more)
    decreases |files|
  {
    if files != [] {
      var front, c := files[..|files| - 1], files[|files| - 1];
      WithoutTwice(front, gone, more);
      var tail := if c.path in gone then [] else [c];
      WithoutAppend(Without(front, gone), tail, more);
    }
  }

  /** The paths recorded as duplicates. */
  function DuplicatePaths(pairs: seq<(Candidate, Candidate)>): set<Path>
  {
    set p | p in pairs :: p.1.path
  }

  lemma PathOfMember(files: seq<Candidate>, c: Candidate)
    requires c in files
    ensures c.path in Paths(files)
  {
    var i :| 0 <= i < |files| && files[i] == c;
    assert Paths(files)[i] == c.path;
  }

  lemma NoRepeatsPrefix(files: seq<Candidate>, c: Candidate)
    requires NoRepeats(Paths(files + [c]))
    ensures NoRepeats(Paths(files))
    ensures c.path !in Paths(files)
  {
    PathsAppend(files, [c]);
    var before, after := multiset(Paths(files)), multiset(Paths(files + [c]));
    assert after == before + multiset{c.path};
    assert after[c.path] <= 1;
    forall p
      ensures before[p] <= 1
    {
      assert before[p] <= after[p];
    }
  }

  lemma NoRepeatsSuffix(c: Candidate, files: seq<Candidate>)
    requires NoRepeats(Paths([c] + files))
    ensures NoRepeats(Paths(files))
    ensures c.path !in Paths(files)
  {
    PathsAppend([c], files);
    var before, after := multiset(Paths(files)), multiset(Paths([c] + files));
    assert after == multiset{c.path} + before;
    assert after[c.path] <= 1;
    forall p
      ensures before[p] <= 1
    {
      assert before[p] <= after[p];
    }
  }

  /** Without repeated paths, an anchor's pass keeps exactly the candidates it
      does not record, in their order. */
  lemma {:induction false} PassKeepsOrder(same: Verdict, anchor: Candidate, rest: seq<Candidate>)
    requires NoRepeats(Paths(rest))
    ensures var r := Pass(same, anchor, rest);
      r.0 == Without(rest, DuplicatePaths(r.1))
    decreases |rest|
  {
    if rest != [] {
      var front, c := rest[..|rest| - 1], rest[|rest| - 1];
      assert rest == front + [c];
      NoRepeatsPrefix(front, c);
      PassKeepsOrder(same, anchor, front);
      var r := Pass(same, anchor, front);
      var gone := DuplicatePaths(r.1);
      assert c.path !in gone by {
        forall p | p in r.1
          ensures p.1.path != c.path
        {
          PathOfMember(front, p.1);
        }
      }
      if same(anchor, c) {
        assert DuplicatePaths(r.1 + [(anchor, c)]) == gone + {c.path};
        WithoutTwice(front, gone, {c.path});
        forall k | k in r.0
          ensures k.path !in {c.path}
        {
          PathOfMember(front, k);
        }
        WithoutNothing(r.0, {c.path});
      }
    }
  }

  /** Without repeated paths, the list left after the grouping loop is the
      candidate list with exactly the recorded duplicates erased, in the
      original order; in particular no anchor is ever erased. */
  lemma {:induction false} GroupingKeepsOrder(same: Verdict, files: seq<Candidate>)
    requires NoRepeats(Paths(files))
    ensures var r := Grouping(same, files);
      r.0 == Without(files, DuplicatePaths(r.1))
    decreases |files|
  {
    if files != [] {
      var anchor, rest := files[0], files[1..];
      assert files == [anchor] + rest;
      NoRepeatsSuffix(anchor, rest);
      var passed := Pass(same, anchor, rest);
      PassKeepsNoRepeats(same, anchor, rest);
      PassKeepsOrder(same, anchor, rest);
      GroupingKeepsOrder(same, passed.0);
      var later := Grouping(same, passed.0);
      var gone, goneLater := DuplicatePaths(passed.1), DuplicatePaths(later.1);
      GroupingStep(same, files);
      assert DuplicatePaths(Grouping(same, files).1) == gone + goneLater;
      AnchorNeverRecorded(same, anchor, rest);
      WithoutCons(anchor, rest, gone + goneLater);
      WithoutTwice(rest, gone, goneLater);
    }
  }

  /** What a pass keeps has no repeated path when the candidates it saw had none. */
  lemma PassKeepsNoRepeats(same: Verdict, anchor: Candidate, rest: seq<Candidate>)
    requires NoRepeats(Paths(rest))
    ensures NoRepeats(Paths(Pass(same, anchor, rest).0))
  {
    var kept := Pass(same, anchor, rest).0;
    PassPartition(same, anchor, rest);
    forall p
      ensures multiset(Paths(kept))[p] <= 1
    {
      assert multiset(Paths(kept))[p] <= multiset(Paths(rest))[p];
    }
  }

  /** An anchor whose path is not among the candidates after it is recorded as
      a duplicate neither by its own pass nor by the grouping of what it keeps. */
  lemma AnchorNeverRecorded(same: Verdict, anchor: Candidate, rest: seq<Candidate>)
    requires anchor.path !in Paths(rest)
    ensures var passed := Pass(same, anchor, rest);
      anchor.path !in DuplicatePaths(passed.1) + DuplicatePaths(Grouping(same, passed.0).1)
  {
    var passed := Pass(same, anchor, rest);
    forall p | p in passed.1 + Grouping(same, passed.0).1
      ensures p.1.path != anchor.path
    {
      assert p.1 in rest;
      PathOfMember(rest, p.1);
    }
  }

  lemma WithoutCons(c: Candidate, files: seq<Candidate>, gone: set<Path>)
    requires c.path !in gone
    ensures Without([c] + files, gone) == [c] + Without(files, gone)
  {
    WithoutAppend([c], files, gone);
    assert [c][..0] == [];
  }

  /** No two candidates left in the list compare equal: each was compared with
      every anchor before it and kept. */
  lemma {:induction false} SurvivorsPairwiseUnequal(same: Verdict, files: seq<Candidate>)
    ensures var survivors := Grouping(same, files).0;
      forall i, j :: 0 <= i < j < |survivors| ==> !same(survivors[i], survivors[j])
    decreases |files|
  {
    if files != [] {
      var anchor, rest := files[0], files[1..];
      var kept := Pass(same, anchor, rest).0;
      SurvivorsPairwiseUnequal(same, kept);
      var later := Grouping(same, kept).0;
      forall k | 0 <= k < |later|
        ensures !same(anchor, later[k])
      {
        assert later[k] in kept;
      }
      GroupingStep(same, files);
      PairwiseUnequalCons(same, anchor, later);
    }
  }

  lemma PairwiseUnequalCons(same: Verdict, anchor: Candidate, later: seq<Candidate>)
    requires forall k :: 0 <= k < |later| ==> !same(anchor, later[k])
    requires forall i, j :: 0 <= i < j < |later| ==> !same(later[i], later[j])
    ensures var all := [anchor] + later;
      forall i, j :: 0 <= i < j < |all| ==> !same(all[i], all[j])
  {
    var all := [anchor] + later;
    forall i, j | 0 <= i < j < |all|
      ensures !same(all[i], all[j])
    {
      assert all[j] == later[j - 1];
      if i > 0 {
        assert all[i] == later[i - 1];
      }
    }
  }

  /** Without repeated paths, no path is recorded as a duplicate twice (so the
      bimap never refuses an insertion) and no recorded duplicate is left in
      the list. */
  lemma DuplicatesRecordedOnce(same: Verdict, files: seq<Candidate>)
    requires NoRepeats(Paths(files))
    ensures var r := Grouping(same, files);
      && NoRepeats(Rights(PathPairs(r.1)))
      && forall p :: p in Rights(PathPairs(r.1)) ==> p !in Paths(r.0)
  {
    var r := Grouping(same, files);
    GroupingPartition(same, files);
    var all, left, right := multiset(Paths(files)), multiset(Paths(r.0)), multiset(Rights(PathPairs(r.1)));
    assert left + right == all;
    forall p
      ensures right[p] <= 1
    {
      assert right[p] <= all[p];
    }
    forall p | p in Rights(PathPairs(r.1))
      ensures p !in Paths(r.0)
    {
      assert right[p] >= 1;
      assert left[p] + right[p] == all[p];
    }
  }

  /** With fewer than two candidates nothing is compared and nothing recorded. */
  lemma FewerThanTwoRecordNothing(same: Verdict, files: seq<Candidate>)
    requires |files| < 2
    ensures Grouping(same, files).1 == []
    ensures Grouping(same, files).0 == files
  {
    if |files| == 1 {
      assert files[1..] == [];
    }
  }

  /** A group of the report: an anchor followed by its duplicates. */
  datatype Group = Group(anchor: Path, duplicates: seq<Path>)

  /** The duplicates recorded for `anchor`, in insertion order (the bimap's
      equal_range on the anchor side). */
  function DuplicatesOf(dictionary: Dictionary, anchor: Path): (dups: seq<Path>)
    ensures forall d :: d in dups <==> (anchor, d) in dictionary
    decreases |dictionary|
  {
    if dictionary == [] then []
    else
      var front, e := dictionary[..|dictionary| - 1], dictionary[|dictionary| - 1];
      assert dictionary == front + [e];
      DuplicatesOf(front, anchor) + (if e.0 == anchor then [e.1] else [])
  }

  /** The duplicates listed for an anchor come in the order they were recorded:
      for i < j, duplicate i was recorded before duplicate j. */
  lemma {:induction false} DuplicatesOfInOrder(dictionary: Dictionary, anchor: Path, i: nat, j: nat)
    requires i < j < |DuplicatesOf(dictionary, anchor)|
    ensures var dups := DuplicatesOf(dictionary, anchor);
      exists p, q :: 0 <= p < q < |dictionary| && dictionary[p] == (anchor, dups[i]) && dictionary[q] == (anchor, dups[j])
    decreases |dictionary|
  {
    var dups := DuplicatesOf(dictionary, anchor);
    var front, e := dictionary[..|dictionary| - 1], dictionary[|dictionary| - 1];
    var before := DuplicatesOf(front, anchor);
    assert dups == before + (if e.0 == anchor then [e.1] else []);
    assert dups[i] == before[i];
    if j < |before| {
      DuplicatesOfInOrder(front, anchor, i, j);
      var p, q :| 0 <= p < q < |front| && front[p] == (anchor, before[i]) && front[q] == (anchor, before[j]);
      assert dictionary[p] == front[p] && dictionary[q] == front[q];
    } else {
      assert dups[j] == e.1 && e.0 == anchor;
      assert before[i] in before;
      var p :| 0 <= p < |front| && front[p] == (anchor, before[i]);
      assert dictionary[p] == front[p];
    }
  }

  /** When no path is recorded twice as a duplicate, no path is listed twice
      for an anchor. */
  lemma DuplicatesOfOnce(dictionary: Dictionary, anchor: Path, i: nat, j: nat)
    requires NoRepeats(Rights(dictionary))
    requires i < j < |DuplicatesOf(dictionary, anchor)|
    ensures DuplicatesOf(dictionary, anchor)[i] != DuplicatesOf(dictionary, anchor)[j]
  {
    var dups := DuplicatesOf(dictionary, anchor);
    DuplicatesOfInOrder(dictionary, anchor, i, j);
    var p, q :| 0 <= p < q < |dictionary| && dictionary[p] == (anchor, dups[i]) && dictionary[q] == (anchor, dups[j]);
    RepeatCounted(Rights(dictionary), p, q);
  }

  /** The report over the remaining paths, in list order. */
  function Report(anchors: seq<Path>, dictionary: Dictionary): (groups: seq<Group>)
    ensures forall g :: g in groups ==>
      && g.anchor in anchors
      && g.duplicates == DuplicatesOf(dictionary, g.anchor)
      && g.duplicates != []
    decreases |anchors|
  {
    if anchors == [] then []
    else
      var front, a := anchors[..|anchors| - 1], anchors[|anchors| - 1];
      var dups := DuplicatesOf(dictionary, a);
      Report(front, dictionary) + (if dups == [] then [] else [Group(a, dups)])
  }

  /** Every recorded pair whose anchor is listed shows up in the report. */
  lemma {:induction false} ReportComplete(anchors: seq<Path>, dictionary: Dictionary, a: Path, d: Path)
    requires a in anchors && (a, d) in dictionary
    ensures exists g :: g in Report(anchors, dictionary) && g.anchor == a && d in g.duplicates
    decreases |anchors|
  {
    var front, last := anchors[..|anchors| - 1], anchors[|anchors| - 1];
    assert anchors == front + [last];
    if last == a {
      var g := Group(a, DuplicatesOf(dictionary, a));
      assert g in Report(anchors, dictionary);
    } else {
      ReportComplete(front, dictionary, a, d);
      var g :| g in Report(front, dictionary) && g.anchor == a && d in g.duplicates;
      assert g in Report(anchors, dictionary);
    }
  }

  /** Group i's anchor stands before group j's anchor in the list, for i < j. */
  ghost predicate InOrder(groups: seq<Group>, anchors: seq<Path>)
  {
    forall i, j :: 0 <= i < j < |groups| ==>
      exists p, q :: 0 <= p < q < |anchors| && anchors[p] == groups[i].anchor && anchors[q] == groups[j].anchor
  }

  /** Equal files are never split over two groups: no candidate compares equal
      to two of the candidates left in the list, the earlier one first. */
  lemma GroupsNotBridged(env: Env, blockSize: nat, hashType: string, files: seq<Candidate>, i: nat, j: nat, b: Candidate)
    requires blockSize > 0
    requires j < |Grouping(SameContent(env, blockSize, hashType), files).0| && i < j
    ensures var survivors := Grouping(SameContent(env, blockSize, hashType), files).0;
      !(FilesEqual(env, blockSize, hashType, survivors[i], b) && FilesEqual(env, blockSize, hashType, b, survivors[j]))
  {
    var survivors := Grouping(SameContent(env, blockSize, hashType), files).0;
    SurvivorsPairwiseUnequal(SameContent(env, blockSize, hashType), files);
    assert !FilesEqual(env, blockSize, hashType, survivors[i], survivors[j]);
    if FilesEqual(env, blockSize, hashType, survivors[i], b) && FilesEqual(env, blockSize, hashType, b, survivors[j]) {
      FilesEqualTransitive(env, blockSize, hashType, survivors[i], b, survivors[j]);
    }
  }

  /** The report visits the remaining paths in list order. */
  lemma {:induction false} ReportInOrder(anchors: seq<Path>, dictionary: Dictionary)
    ensures InOrder(Report(anchors, dictionary), anchors)
    decreases |anchors|
  {
    if anchors != [] {
      var front, a := anchors[..|anchors| - 1], anchors[|anchors| - 1];
      var before := Report(front, dictionary);
      var groups := Report(anchors, dictionary);
      ReportInOrder(front, dictionary);
      forall i, j | 0 <= i < j < |groups|
        ensures exists p, q :: 0 <= p < q < |anchors| && anchors[p] == groups[i].anchor && anchors[q] == groups[j].anchor
      {
        assert groups[i] == before[i];
        if j < |before| {
          assert groups[j] == before[j];
          var p, q :| 0 <= p < q < |front| && front[p] == before[i].anchor && front[q] == before[j].anchor;
          assert anchors[p] == front[p] && anchors[q] == front[q];
        } else {
          assert groups[j].anchor == a;
          assert before[i] in before;
          var p :| 0 <= p < |front| && front[p] == before[i].anchor;
          assert anchors[p] == front[p];
        }
      }
    }
  }

  /** When no path is listed twice, no anchor is reported twice. */
  lemma ReportAnchorsOnce(anchors: seq<Path>, dictionary: Dictionary)
    requires NoRepeats(anchors)
    ensures var groups := Report(anchors, dictionary);
      forall i, j :: 0 <= i < j < |groups| ==> groups[i].anchor != groups[j].anchor
  {
    var groups := Report(anchors, dictionary);
    ReportInOrder(anchors, dictionary);
    forall i, j | 0 <= i < j < |groups|
      ensures groups[i].anchor != groups[j].anchor
    {
      var p, q :| 0 <= p < q < |anchors| && anchors[p] == groups[i].anchor && anchors[q] == groups[j].anchor;
      RepeatCounted(anchors, p, q);
    }
  }

  /** A path at two positions of a sequence occurs there at least twice. */
  lemma RepeatCounted(paths: seq<Path>, p: nat, q: nat)
    requires p < q < |paths|
    ensures paths[p] == paths[q] ==> multiset(paths)[paths[p]] >= 2
  {
    var x := paths[p];
    assert paths == paths[..q] + paths[q..];
    assert paths[..q][p] == x && paths[q..][0] == paths[q];
    assert multiset(paths)[x] == multiset(paths[..q])[x] + multiset(paths[q..])[x];
  }

  /** What the report says about the grouping: every reported duplicate was
      recorded against its anchor and compared equal with it, and every
      recorded pair is reported. */
  lemma ReportOfGrouping(same: Verdict, files: seq<Candidate>)
    ensures var survivors, pairs := Grouping(same, files).0, Grouping(same, files).1;
      var report := Report(Paths(survivors), PathPairs(pairs));
      && (forall g, d :: g in report && d in g.duplicates ==>
            exists p :: p in pairs && p.0.path == g.anchor && p.1.path == d && same(p.0, p.1))
      && (forall p :: p in pairs ==>
            exists g :: g in report && g.anchor == p.0.path && p.1.path in g.duplicates)
  {
    var survivors, pairs := Grouping(same, files).0, Grouping(same, files).1;
    var dictionary := PathPairs(pairs);
    var report := Report(Paths(survivors), dictionary);
    forall g, d | g in report && d in g.duplicates
      ensures exists p :: p in pairs && p.0.path == g.anchor && p.1.path == d && same(p.0, p.1)
    {
      assert (g.anchor, d) in dictionary;
      var k :| 0 <= k < |dictionary| && dictionary[k] == (g.anchor, d);
      assert pairs[k] in pairs;
    }
    forall p | p in pairs
      ensures exists g :: g in report && g.anchor == p.0.path && p.1.path in g.duplicates
    {
      var k :| 0 <= k < |pairs| && pairs[k] == p;
      assert dictionary[k] == (p.0.path, p.1.path);
      assert p.0 in survivors;
      var i :| 0 <= i < |survivors| && survivors[i] == p.0;
      assert Paths(survivors)[i] == p.0.path;
      ReportComplete(Paths(survivors), dictionary, p.0.path, p.1.path);
    }
  }

  /** One more candidate seen by an anchor's pass. */
  lemma PassStep(same: Verdict, anchor: Candidate, seen: seq<Candidate>, c: Candidate)
    ensures var before := Pass(same, anchor, seen);
      Pass(same, anchor, seen + [c])
        == if same(anchor, c) then (before.0, before.1 + [(anchor, c)]) else (before.0 + [c], before.1)
  {
    assert (seen + [c])[..|seen|] == seen;
  }

  /** Two candidates at different positions of a list without repeated paths
      have different paths. */
  lemma DistinctPaths(files: seq<Candidate>, i: nat, j: nat)
    requires NoRepeats(Paths(files)) && i < j < |files|
    ensures files[i].path != files[j].path
  {
    assert files == files[..j] + files[j..];
    PathsAppend(files[..j], files[j..]);
    PathOfMember(files[..j], files[i]);
    PathOfMember(files[j..], files[j]);
    var p := files[j].path;
    assert multiset(Paths(files)) == multiset(Paths(files[..j])) + multiset(Paths(files[j..]));
    assert multiset(Paths(files[j..]))[p] >= 1;
    assert multiset(Paths(files[..j]))[files[i].path] >= 1;
    assert multiset(Paths(files))[p] <= 1;
  }

  /** The list is part of a partition of `files`, so it has no repeated path
      and none of its paths is recorded as a duplicate. */
  lemma PartitionedList(list: seq<Candidate>, dictionary: Dictionary, files: seq<Candidate>)
    requires NoRepeats(Paths(files))
    requires multiset(Paths(list)) + multiset(Rights(dictionary)) == multiset(Paths(files))
    ensures NoRepeats(Paths(list))
    ensures forall c :: c in list ==> c.path !in Rights(dictionary)
  {
    forall p
      ensures multiset(Paths(list))[p] <= 1
    {
      assert multiset(Paths(files))[p] <= 1;
    }
    forall c | c in list
      ensures c.path !in Rights(dictionary)
    {
      PathOfMember(list, c);
      assert multiset(Paths(files))[c.path] <= 1;
    }
  }

  /** How far the inner loop for the anchor at position `it` has got: `after`
      is the list so far and `recorded` the dictionary so far, `next` is the
      position of the next candidate to compare and `q` the number of
      candidates of the original tail seen so far. */
  ghost predicate Swept(same: Verdict, list: seq<Candidate>, it: nat, dictionary: Dictionary,
                        after: seq<Candidate>, recorded: Dictionary, next: nat, q: nat)
  {
    && it < |list|
    && it + 1 <= next <= |after| && q <= |list| - (it + 1)
    && after[..it + 1] == list[..it + 1]
    && after[it + 1..next] == Pass(same, list[it], list[it + 1..][..q]).0
    && after[next..] == list[it + 1..][q..]
    && recorded == dictionary + PathPairs(Pass(same, list[it], list[it + 1..][..q]).1)
  }

  lemma SweepStart(same: Verdict, list: seq<Candidate>, it: nat, dictionary: Dictionary)
    requires it < |list|
    ensures Swept(same, list, it, dictionary, list, dictionary, it + 1, 0)
  {
    assert list[it + 1..it + 1] == [];
    assert PathPairs([]) == [];
  }

  /** The next candidate of the inner loop is the next one of the anchor's original tail. */
  lemma SweepNext(same: Verdict, list: seq<Candidate>, it: nat, dictionary: Dictionary,
                  after: seq<Candidate>, recorded: Dictionary, next: nat, q: nat)
    requires Swept(same, list, it, dictionary, after, recorded, next, q) && next < |after|
    ensures it + 1 + q < |list| && after[next] == list[it + 1 + q]
  {
    assert after[next..][0] == after[next];
  }

  /** A candidate the anchor's pass has not reached is not recorded yet, so
      the bimap accepts it. */
  lemma SweepNotRecorded(same: Verdict, list: seq<Candidate>, it: nat, dictionary: Dictionary, files: seq<Candidate>,
                         after: seq<Candidate>, recorded: Dictionary, next: nat, q: nat)
    requires Swept(same, list, it, dictionary, after, recorded, next, q) && next < |after|
    requires NoRepeats(Paths(files))
    requires multiset(Paths(list)) + multiset(Rights(dictionary)) == multiset(Paths(files))
    ensures after[next].path !in Rights(recorded)
  {
    SweepNext(same, list, it, dictionary, after, recorded, next, q);
    var c, seen := list[it + 1 + q], list[it + 1..][..q];
    var passed := Pass(same, list[it], seen);
    PartitionedList(list, dictionary, files);
    forall k | 0 <= k < |passed.1|
      ensures Rights(PathPairs(passed.1))[k] != c.path
    {
      assert passed.1[k] in passed.1;
      var i :| 0 <= i < q && seen[i] == passed.1[k].1;
      DistinctPaths(list, it + 1 + i, it + 1 + q);
    }
    assert Rights(recorded) == Rights(dictionary) + Rights(PathPairs(passed.1));
  }

  /** An equal candidate is recorded against the anchor and erased. */
  lemma SweepErase(same: Verdict, list: seq<Candidate>, it: nat, dictionary: Dictionary,
                   after: seq<Candidate>, recorded: Dictionary, next: nat, q: nat)
    requires Swept(same, list, it, dictionary, after, recorded, next, q) && next < |after|
    requires same(list[it], after[next])
    ensures Swept(same, list, it, dictionary, after[..next] + after[next + 1..],
                  recorded + [(list[it].path, after[next].path)], next, q + 1)
  {
    var anchor, tail, c := list[it], list[it + 1..], after[next];
    SweepNext(same, list, it, dictionary, after, recorded, next, q);
    assert tail[..q + 1] == tail[..q] + [c];
    PassStep(same, anchor, tail[..q], c);
    PathPairsAppend(Pass(same, anchor, tail[..q]).1, [(anchor, c)]);
    var after' := after[..next] + after[next + 1..];
    assert after'[..it + 1] == after[..it + 1];
    assert after'[it + 1..next] == after[it + 1..next];
    assert after'[next..] == after[next + 1..];
  }

  /** A candidate that is not equal stays in the list and the loop moves past it. */
  lemma SweepSkip(same: Verdict, list: seq<Candidate>, it: nat, dictionary: Dictionary,
                  after: seq<Candidate>, recorded: Dictionary, next: nat, q: nat)
    requires Swept(same, list, it, dictionary, after, recorded, next, q) && next < |after|
    requires !same(list[it], after[next])
    ensures Swept(same, list, it, dictionary, after, recorded, next + 1, q + 1)
  {
    var anchor, tail, c := list[it], list[it + 1..], after[next];
    SweepNext(same, list, it, dictionary, after, recorded, next, q);
    assert tail[..q + 1] == tail[..q] + [c];
    PassStep(same, anchor, tail[..q], c);
    assert after[it + 1..next + 1] == after[it + 1..next] + [c];
    assert after[next + 1..] == after[next..][1..];
    assert tail[q + 1..] == tail[q..][1..];
  }

  /** After the inner loop for the anchor at `it`, the list and the dictionary
      still split the candidates' paths between them. */
  lemma SweepKeepsPartition(same: Verdict, list: seq<Candidate>, it: nat, dictionary: Dictionary, files: seq<Candidate>)
    requires it < |list|
    requires multiset(Paths(list)) + multiset(Rights(dictionary)) == multiset(Paths(files))
    ensures var passed := Pass(same, list[it], list[it + 1..]);
      multiset(Paths(list[..it + 1] + passed.0)) + multiset(Rights(dictionary + PathPairs(passed.1)))
        == multiset(Paths(files))
  {
    var head, tail := list[..it + 1], list[it + 1..];
    var passed := Pass(same, list[it], tail);
    PassPartition(same, list[it], tail);
    PathsSplit(list, it + 1);
    PathsMultiset(head, passed.0);
    RightsMultiset(dictionary, PathPairs(passed.1));
    Regroup(multiset(Paths(head)), multiset(Paths(tail)), multiset(Paths(passed.0)),
            multiset(Rights(PathPairs(passed.1))), multiset(Rights(dictionary)));
  }

  lemma PathsMultiset(files: seq<Candidate>, more: seq<Candidate>)
    ensures multiset(Paths(files + more)) == multiset(Paths(files)) + multiset(Paths(more))
  {
    PathsAppend(files, more);
  }

  lemma PathsSplit(files: seq<Candidate>, n: nat)
    requires n <= |files|
    ensures multiset(Paths(files)) == multiset(Paths(files[..n])) + multiset(Paths(files[n..]))
  {
    assert files == files[..n] + files[n..];
    PathsMultiset(files[..n], files[n..]);
  }

  lemma RightsMultiset(dictionary: Dictionary, more: Dictionary)
    ensures multiset(Rights(dictionary + more)) == multiset(Rights(dictionary)) + multiset(Rights(more))
  {
    assert Rights(dictionary + more) == Rights(dictionary) + Rights(more);
  }

  lemma Regroup<T>(head: multiset<T>, tail: multiset<T>, kept: multiset<T>, found: multiset<T>, earlier: multiset<T>)
    requires kept + found == tail
    ensures head + kept + (earlier + found) == head + tail + earlier
  {
  }

  /** One iteration of the inner loop of main.cpp: a fresh reader for the next
      candidate is compared with the anchor's reader, which keeps what it has
      read for the anchor's later comparisons; an equal candidate is recorded
      against the anchor and erased from the list, any other is stepped over. */
  method SweepOnce(env: Env, matcher: FilesMatcher, ghost same: Verdict, fileFirst: FileInfo,
                   ghost list: seq<Candidate>, it: nat, ghost dictionary: Dictionary, ghost files: seq<Candidate>,
                   after: seq<Candidate>, recorded: Dictionary, next: nat, ghost q: nat)
    returns (after': seq<Candidate>, recorded': Dictionary, next': nat, ghost q': nat)
    requires matcher.blockSize > 0 && Decides(same, env, matcher.blockSize, matcher.hashType)
    requires NoRepeats(Paths(files))
    requires multiset(Paths(list)) + multiset(Rights(dictionary)) == multiset(Paths(files))
    requires Swept(same, list, it, dictionary, after, recorded, next, q) && next < |after|
    requires fileFirst.File() == list[it]
    requires Coherent(env, matcher.blockSize, matcher.hashType, list[it], fileFirst.State())
    modifies fileFirst
    ensures Swept(same, list, it, dictionary, after', recorded', next', q')
    ensures |after'| - next' < |after| - next
    ensures fileFirst.State() == ReadSteps(env, matcher.blockSize, matcher.hashType, list[it], old(fileFirst.State()),
                                           Requests(env, matcher.blockSize, matcher.hashType, list[it], after[next]))
    ensures Coherent(env, matcher.blockSize, matcher.hashType, list[it], fileFirst.State())
  {
    var candidate := after[next];
    var fileSecond := new FileInfo(candidate.path, candidate.size);
    UnreadIsCoherent(env, matcher.blockSize, matcher.hashType, candidate);
    var equal := matcher.CheckFilesEqual(env, fileFirst, fileSecond);
    if equal {
      SweepNotRecorded(same, list, it, dictionary, files, after, recorded, next, q);
      SweepErase(same, list, it, dictionary, after, recorded, next, q);
      recorded' := BimapInsert(recorded, (fileFirst.fileName, candidate.path));
      after', next' := after[..next] + after[next + 1..], next;
    } else {
      SweepSkip(same, list, it, dictionary, after, recorded, next, q);
      after', recorded', next' := after, recorded, next + 1;
    }
    q' := q + 1;
  }

  /** The inner loop of main.cpp for the anchor at position `it`: the anchor
      gets a fresh reader that is reused for all of its comparisons. The list
      and the dictionary are passed in and handed back. */
  method SweepAnchor(env: Env, matcher: FilesMatcher, ghost same: Verdict, list: seq<Candidate>, it: nat,
                     dictionary: Dictionary, ghost files: seq<Candidate>)
    returns (after: seq<Candidate>, recorded: Dictionary)
    requires matcher.blockSize > 0 && Decides(same, env, matcher.blockSize, matcher.hashType)
    requires it < |list|
    requires NoRepeats(Paths(files))
    requires multiset(Paths(list)) + multiset(Rights(dictionary)) == multiset(Paths(files))
    ensures var passed := Pass(same, list[it], list[it + 1..]);
      && after == list[..it + 1] + passed.0
      && recorded == dictionary + PathPairs(passed.1)
  {
    var anchor := list[it];
    var fileFirst := new FileInfo(anchor.path, anchor.size);
    UnreadIsCoherent(env, matcher.blockSize, matcher.hashType, anchor);
    after, recorded := list, dictionary;
    var next := it + 1;
    ghost var q: nat := 0;
    SweepStart(same, list, it, dictionary);
    while next < |after|
      invariant Swept(same, list, it, dictionary, after, recorded, next, q)
      invariant fileFirst.File() == anchor
      invariant Coherent(env, matcher.blockSize, matcher.hashType, anchor, fileFirst.State())
      decreases |after| - next
    {
      after, recorded, next, q := SweepOnce(env, matcher, same, fileFirst, list, it, dictionary, files,
                                            after, recorded, next, q);
    }
    assert list[it + 1..][..q] == list[it + 1..];
  }

  /** The outer loop's bookkeeping: after the sweep of the anchor at `it`,
      what is left to group is what that anchor's pass kept. */
  lemma GroupingAdvance(same: Verdict, list: seq<Candidate>, it: nat, dictionary: Dictionary,
                        grouping: (seq<Candidate>, seq<(Candidate, Candidate)>))
    requires it < |list|
    requires list[..it] + Grouping(same, list[it..]).0 == grouping.0
    requires dictionary + PathPairs(Grouping(same, list[it..]).1) == PathPairs(grouping.1)
    ensures var passed := Pass(same, list[it], list[it + 1..]);
      var list', dictionary' := list[..it + 1] + passed.0, dictionary + PathPairs(passed.1);
      && list'[..it + 1] + Grouping(same, list'[it + 1..]).0 == grouping.0
      && dictionary' + PathPairs(Grouping(same, list'[it + 1..]).1) == PathPairs(grouping.1)
  {
    var anchor, tail := list[it], list[it + 1..];
    var passed := Pass(same, anchor, tail);
    var later := Grouping(same, passed.0);
    assert Grouping(same, list[it..]) == ([anchor] + later.0, passed.1 + later.1) by {
      assert list[it..][0] == anchor && list[it..][1..] == tail;
      GroupingStep(same, list[it..]);
    }
    Reanchor(list, it, passed.0, later.0);
    PathPairsAppend(passed.1, later.1);
  }

  /** The list after the sweep of the anchor at `it`: its first it + 1
      entries are those of the list before, followed by `kept`. */
  lemma Reanchor<T>(list: seq<T>, it: nat, kept: seq<T>, later: seq<T>)
    requires it < |list|
    ensures var list' := list[..it + 1] + kept;
      && list'[it + 1..] == kept
      && list'[..it + 1] + later == list[..it] + ([list[it]] + later)
  {
    var list' := list[..it + 1] + kept;
    assert list'[..it + 1] == list[..it] + [list[it]];
  }

  /** The grouping loop of main.cpp, over the candidates the directory walk listed. */
  method GroupDuplicates(env: Env, matcher: FilesMatcher, files: seq<Candidate>)
    returns (survivors: seq<Candidate>, dictionary: Dictionary)
    requires matcher.blockSize > 0
    requires NoRepeats(Paths(files))
    ensures survivors == Grouping(SameContent(env, matcher.blockSize, matcher.hashType), files).0
    ensures dictionary == PathPairs(Grouping(SameContent(env, matcher.blockSize, matcher.hashType), files).1)
  {
    ghost var same := SameContent(env, matcher.blockSize, matcher.hashType);
    ghost var grouping := Grouping(same, files);
    var list := files;
    dictionary := [];
    var it := 0;
    while it < |list|
      invariant it <= |list|
      invariant list[..it] + Grouping(same, list[it..]).0 == grouping.0
      invariant dictionary + PathPairs(Grouping(same, list[it..]).1) == PathPairs(grouping.1)
      invariant multiset(Paths(list)) + multiset(Rights(dictionary)) == multiset(Paths(files))
      decreases |list| - it
    {
      SweepKeepsPartition(same, list, it, dictionary, files);
      GroupingAdvance(same, list, it, dictionary, grouping);
      list, dictionary := SweepAnchor(env, matcher, same, list, it, dictionary, files);
      it := it + 1;
    }
    assert list[it..] == [];
    assert list[..it] == list;
    survivors := list;
  }

  /** The report loop of main.cpp: the remaining candidates in list order, each
      one that has recorded duplicates followed by them. */
  method BuildReport(survivors: seq<Candidate>, dictionary: Dictionary) returns (groups: seq<Group>)
    ensures groups == Report(Paths(survivors), dictionary)
  {
    groups := [];
    var it := 0;
    while it < |survivors|
      invariant it <= |survivors|
      invariant groups == Report(Paths(survivors)[..it], dictionary)
    {
      assert Paths(survivors)[..it + 1][..it] == Paths(survivors)[..it];
      var duplicates := DuplicatesOf(dictionary, survivors[it].path);
      if duplicates == [] {
        it := it + 1;
        continue;
      }
      groups := groups + [Group(survivors[it].path, duplicates)];
      it := it + 1;
    }
    assert Paths(survivors)[..it] == Paths(survivors);
  }

  /** What the duplicate search ends in. */
  datatype Outcome = UnsupportedHashType | NothingToMatch | Found(groups: seq<Group>)

  /** The part of main.cpp that follows the directory walk: reject an unknown
      hash type, stop when fewer than two candidates were found, otherwise
      group the candidates and build the report. */
  method FindDuplicates(env: Env, blockSize: nat, hashType: string, files: seq<Candidate>) returns (outcome: Outcome)
    requires IsSupportedHashType(hashType) && |files| >= 2 ==> blockSize > 0 && NoRepeats(Paths(files))
    ensures outcome == UnsupportedHashType <==> !IsSupportedHashType(hashType)
    ensures outcome == NothingToMatch <==> IsSupportedHashType(hashType) && |files| < 2
    ensures outcome.Found? ==>
      && blockSize > 0
      && outcome.groups == Report(Paths(Grouping(SameContent(env, blockSize, hashType), files).0),
                                  PathPairs(Grouping(SameContent(env, blockSize, hashType), files).1))
  {
    if !IsSupportedHashType(hashType) {
      return UnsupportedHashType;
    }
    if |files| < 2 {
      return NothingToMatch;
    }
    var matcher := new FilesMatcher(blockSize, hashType);
    var survivors, dictionary := GroupDuplicates(env, matcher, files);
    var groups := BuildReport(survivors, dictionary);
    return Found(groups);
  }
}

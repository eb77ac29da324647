/**
  The two pure rules inside the minutiae editor tab of `gui_editor.py`:
  right-click deletion of the nearest minutia, and the choice of encoder
  from the extension of the file name picked for saving. The query point
  arrives already scaled to the original image's pixel space.
 */
module Editor {
  import opened Text
  import opened Minutiae
  import opened Reader

  // ---------------------------------------------------------------------
  // Nearest-minutia deletion
  // ---------------------------------------------------------------------

  /** Only minutiae strictly closer than this are candidates. */
  const Threshold: real := 10.0

  function Abs(v: real): real
  {
    if v < 0.0 then -v else v
  }

  /** The Manhattan distance from a minutia to the query point. */
  function Distance(m: Minutia, qx: real, qy: real): (d: real)
    ensures d >= 0.0
    ensures d == 0.0 <==> m.x as real == qx && m.y as real == qy
    ensures d >= Abs(m.x as real - qx) && d >= Abs(m.y as real - qy)
  {
    Abs(m.x as real - qx) + Abs(m.y as real - qy)
  }

  /** The distance of every minutia to the query point, by index. */
  function Distances(ms: seq<Minutia>, qx: real, qy: real): (d: seq<real>)
    ensures |d| == |ms|
    ensures forall j :: 0 <= j < |ms| ==> d[j] == Distance(ms[j], qx, qy)
  {
    seq(|ms|, j requires 0 <= j < |ms| => Distance(ms[j], qx, qy))
  }

  /** One `(dist, i)` pair of the candidate list. */
  datatype Candidate = Candidate(dist: real, index: nat)

  /** Index `j` appears in the candidate list. */
  predicate Listed(c: seq<Candidate>, j: nat) {
    exists k :: 0 <= k < |c| && c[k].index == j
  }

  /**
    The candidate list built by the loop over `range(len(minutiae))`, from
    index `i` on, given each minutia's distance `d[j]`: exactly the indices
    whose distance is strictly below the threshold, with that distance, in
    index order.
   */
  function CandidatesFrom(d: seq<real>, i: nat): (c: seq<Candidate>)
    requires i <= |d|
    ensures forall k :: 0 <= k < |c| ==> i <= c[k].index < |d|
    ensures forall k :: 0 <= k < |c| ==> c[k].dist == d[c[k].index] < Threshold
    ensures forall a, b :: 0 <= a < b < |c| ==> c[a].index < c[b].index
    decreases |d| - i
  {
    if i == |d| then []
    else
      var rest := CandidatesFrom(d, i + 1);
      if d[i] < Threshold then [Candidate(d[i], i)] + rest else rest
  }

  /** No index within the threshold is left out of the candidate list. */
  lemma {:induction false} CandidatesComplete(d: seq<real>, i: nat)
    requires i <= |d|
    ensures forall j :: i <= j < |d| && d[j] < Threshold ==> Listed(CandidatesFrom(d, i), j)
    decreases |d| - i
  {
    if i < |d| {
      CandidatesComplete(d, i + 1);
      if d[i] < Threshold {
        ConsKeepsListed(Candidate(d[i], i), CandidatesFrom(d, i + 1));
      }
    }
  }

  /** Putting a candidate in front keeps every listed index listed. */
  lemma ConsKeepsListed(x: Candidate, rest: seq<Candidate>)
    ensures Listed([x] + rest, x.index)
    ensures forall j :: Listed(rest, j) ==> Listed([x] + rest, j)
  {
    var c := [x] + rest;
    assert c[0].index == x.index;
    forall j | Listed(rest, j) ensures Listed(c, j) {
      var k :| 0 <= k < |rest| && rest[k].index == j;
      assert c[k + 1] == rest[k];
    }
  }

  /** Each candidate is no farther than the next. */
  predicate SortedByDist(c: seq<Candidate>) {
    forall k :: 0 < k < |c| ==> c[k - 1].dist <= c[k].dist
  }

  /**
    Inserts `x` before the first element that is not closer than it, so
    that `x` stays ahead of the equally distant elements that followed it.
   */
  function Insert(x: Candidate, s: seq<Candidate>): (r: seq<Candidate>)
    requires SortedByDist(s)
    ensures SortedByDist(r)
    ensures multiset(r) == multiset(s) + multiset{x}
    ensures |r| == |s| + 1
    ensures r[0] == (if |s| == 0 || x.dist <= s[0].dist then x else s[0])
  {
    if |s| == 0 || x.dist <= s[0].dist then [x] + s
    else
      var t := Insert(x, s[1..]);
      assert s == [s[0]] + s[1..];
      assert s[0].dist <= t[0].dist by {
        if |s| > 1 { assert s[0].dist <= s[1].dist; }
      }
      var r := [s[0]] + t;
      assert forall k :: 0 < k < |r| ==> r[k] == t[k - 1];
      r
  }

  /** `list.sort(key=dist)`: a stable insertion sort on the distance. */
  function SortByDist(c: seq<Candidate>): (r: seq<Candidate>)
    ensures SortedByDist(r)
    ensures multiset(r) == multiset(c)
    ensures |r| == |c|
  {
    if |c| == 0 then []
    else
      assert c == [c[0]] + c[1..];
      Insert(c[0], SortByDist(c[1..]))
  }

  /** The head of the sorted list: the first candidate unless the rest ranks a strictly closer one first. */
  lemma SortHeadStep(c: seq<Candidate>)
    requires |c| > 1
    ensures var h := SortByDist(c[1..])[0];
      SortByDist(c)[0] == (if c[0].dist <= h.dist then c[0] else h)
  {
  }

  /** Position `k` holds the smallest distance of `c`, and no earlier position does. */
  predicate IsFirstClosest(c: seq<Candidate>, k: nat) {
    && k < |c|
    && (forall j :: 0 <= j < |c| ==> c[k].dist <= c[j].dist)
    && (forall j :: 0 <= j < k ==> c[k].dist < c[j].dist)
  }

  /** After the stable sort, the head is the earliest of the closest candidates. */
  lemma {:induction false} SortHeadIsFirstClosest(c: seq<Candidate>)
    requires |c| > 0
    ensures exists k: nat :: IsFirstClosest(c, k) && SortByDist(c)[0] == c[k]
  {
    if |c| == 1 {
      assert IsFirstClosest(c, 0);
    } else {
      var tail := c[1..];
      SortHeadIsFirstClosest(tail);
      var k': nat :| IsFirstClosest(tail, k') && SortByDist(tail)[0] == tail[k'];
      SortHeadStep(c);
      var k := if c[0].dist <= tail[k'].dist then 0 else k' + 1;
      assert c[k] == SortByDist(c)[0];
      forall j | 0 <= j < |c| ensures c[k].dist <= c[j].dist && (j < k ==> c[k].dist < c[j].dist) {
        if j > 0 { assert c[j] == tail[j - 1]; }
      }
      assert IsFirstClosest(c, k);
    }
  }

  /** Some minutia lies strictly within the threshold of the query point. */
  predicate HasCandidate(ms: seq<Minutia>, qx: real, qy: real) {
    exists j :: 0 <= j < |ms| && Distance(ms[j], qx, qy) < Threshold
  }

  /**
    Index `k` is the minutia a right-click at the query point deletes: within
    the threshold, no farther than any other minutia, and strictly closer
    than every minutia before it.
   */
  predicate IsNearest(ms: seq<Minutia>, qx: real, qy: real, k: int) {
    && 0 <= k < |ms|
    && Distance(ms[k], qx, qy) < Threshold
    && (forall j :: 0 <= j < |ms| ==> Distance(ms[k], qx, qy) <= Distance(ms[j], qx, qy))
    && (forall j :: 0 <= j < k ==> Distance(ms[k], qx, qy) < Distance(ms[j], qx, qy))
  }

  /** The earliest of the closest candidates is the nearest minutia. */
  lemma FirstClosestIsNearest(ms: seq<Minutia>, qx: real, qy: real, f: nat)
    requires IsFirstClosest(CandidatesFrom(Distances(ms, qx, qy), 0), f)
    ensures IsNearest(ms, qx, qy, CandidatesFrom(Distances(ms, qx, qy), 0)[f].index)
  {
    var c := CandidatesFrom(Distances(ms, qx, qy), 0);
    var k := c[f].index;
    var dk := Distance(ms[k], qx, qy);
    assert dk == c[f].dist < Threshold;
    forall j | 0 <= j < |ms| && Distance(ms[j], qx, qy) < Threshold
      ensures dk <= Distance(ms[j], qx, qy)
      ensures j < k ==> dk < Distance(ms[j], qx, qy)
    {
      WithinThresholdIsListed(ms, qx, qy, j);
      var a :| 0 <= a < |c| && c[a].index == j;
      assert c[a].dist == Distance(ms[j], qx, qy);
      assert j < k ==> a < f;
    }
  }

  /** The candidate the stable sort ranks first is the nearest minutia. */
  lemma RankedFirstIsNearest(ms: seq<Minutia>, qx: real, qy: real)
    requires |CandidatesFrom(Distances(ms, qx, qy), 0)| > 0
    ensures IsNearest(ms, qx, qy, SortByDist(CandidatesFrom(Distances(ms, qx, qy), 0))[0].index)
  {
    var c := CandidatesFrom(Distances(ms, qx, qy), 0);
    SortHeadIsFirstClosest(c);
    var f: nat :| IsFirstClosest(c, f) && SortByDist(c)[0] == c[f];
    FirstClosestIsNearest(ms, qx, qy, f);
  }

  /** There is at most one nearest minutia. */
  lemma NearestUnique(ms: seq<Minutia>, qx: real, qy: real, k1: int, k2: int)
    requires IsNearest(ms, qx, qy, k1) && IsNearest(ms, qx, qy, k2)
    ensures k1 == k2
  {
  }

  /** Every minutia strictly within the threshold is listed as a candidate. */
  lemma WithinThresholdIsListed(ms: seq<Minutia>, qx: real, qy: real, j: nat)
    requires j < |ms| && Distance(ms[j], qx, qy) < Threshold
    ensures Listed(CandidatesFrom(Distances(ms, qx, qy), 0), j)
  {
    assert Distances(ms, qx, qy)[j] < Threshold;
    CandidatesComplete(Distances(ms, qx, qy), 0);
  }

  /** Every listed candidate is strictly within the threshold. */
  lemma ListedIsWithinThreshold(ms: seq<Minutia>, qx: real, qy: real, k: nat)
    requires k < |CandidatesFrom(Distances(ms, qx, qy), 0)|
    ensures CandidatesFrom(Distances(ms, qx, qy), 0)[k].index < |ms|
    ensures Distance(ms[CandidatesFrom(Distances(ms, qx, qy), 0)[k].index], qx, qy) < Threshold
  {
  }

  /** The candidate list is non-empty exactly when some minutia is within the threshold. */
  lemma CandidatesExistIff(ms: seq<Minutia>, qx: real, qy: real)
    ensures |CandidatesFrom(Distances(ms, qx, qy), 0)| > 0 <==> HasCandidate(ms, qx, qy)
  {
    if HasCandidate(ms, qx, qy) {
      var j :| 0 <= j < |ms| && Distance(ms[j], qx, qy) < Threshold;
      WithinThresholdIsListed(ms, qx, qy, j);
    }
    if |CandidatesFrom(Distances(ms, qx, qy), 0)| > 0 {
      ListedIsWithinThreshold(ms, qx, qy, 0);
    }
  }

  /**
    `click_remove_minutia` after scaling: rank the candidates and delete the
    first, or leave the list alone when there is none.
   */
  function RemoveNearest(ms: seq<Minutia>, qx: real, qy: real): (r: seq<Minutia>)
    ensures HasCandidate(ms, qx, qy) ==> |r| == |ms| - 1
    ensures !HasCandidate(ms, qx, qy) ==> r == ms
  {
    var c := CandidatesFrom(Distances(ms, qx, qy), 0);
    var ranked := SortByDist(c);
    CandidatesExistIff(ms, qx, qy);
    if |ranked| == 0 then
      ms
    else
      assert ranked[0] in multiset(c);
      var i := ranked[0].index;
      ms[..i] + ms[i + 1..]
  }

  /**
    The deletion rule in full: the list is unchanged exactly when no minutia
    is strictly within the threshold; otherwise there is a nearest minutia,
    and precisely it is removed, the others keeping their relative order.
   */
  lemma RemoveNearestSpec(ms: seq<Minutia>, qx: real, qy: real)
    ensures RemoveNearest(ms, qx, qy) == ms <==> !HasCandidate(ms, qx, qy)
    ensures HasCandidate(ms, qx, qy) ==> exists k :: IsNearest(ms, qx, qy, k)
    ensures forall k :: IsNearest(ms, qx, qy, k) ==>
      RemoveNearest(ms, qx, qy) == ms[..k] + ms[k + 1..]
  {
    var c := CandidatesFrom(Distances(ms, qx, qy), 0);
    if |c| > 0 {
      RankedFirstIsNearest(ms, qx, qy);
      var n := SortByDist(c)[0].index;
      assert RemoveNearest(ms, qx, qy) == ms[..n] + ms[n + 1..];
      CandidatesExistIff(ms, qx, qy);
      forall k | IsNearest(ms, qx, qy, k) ensures RemoveNearest(ms, qx, qy) == ms[..k] + ms[k + 1..] {
        NearestUnique(ms, qx, qy, k, n);
      }
    } else {
      assert RemoveNearest(ms, qx, qy) == ms;
      CandidatesExistIff(ms, qx, qy);
      forall k | 0 <= k < |ms| ensures !IsNearest(ms, qx, qy, k) {
        assert Distance(ms[k], qx, qy) >= Threshold;
      }
    }
  }

  /**
    Minutiae at (0,0) and (5,5): a click at (1,1) deletes the first (distance 2
    against 8); a click at (100,100) reaches neither; at (10,0) both lie at
    exactly 10, which is not close enough; at (2.5,2.5) both lie at 5 and the
    one earlier in the list goes.
   */
  lemma DeletionExamples(a: Minutia, b: Minutia)
    requires a.x == 0 && a.y == 0 && b.x == 5 && b.y == 5
    ensures RemoveNearest([a, b], 1.0, 1.0) == [b]
    ensures RemoveNearest([a, b], 100.0, 100.0) == [a, b]
    ensures RemoveNearest([a, b], 10.0, 0.0) == [a, b]
    ensures RemoveNearest([a, b], 2.5, 2.5) == [b]
    ensures RemoveNearest([b, a], 2.5, 2.5) == [a]
  {
    var ms := [a, b];
    assert IsNearest(ms, 1.0, 1.0, 0);
    RemoveNearestSpec(ms, 1.0, 1.0);
    assert ms[..0] + ms[1..] == [b];
    assert !HasCandidate(ms, 100.0, 100.0);
    assert !HasCandidate(ms, 10.0, 0.0);
    TieExample(a, b, 2.5, 2.5);
    TieExample(b, a, 2.5, 2.5);
  }

  /** Of two minutiae equally close to the click, the earlier one goes. */
  lemma TieExample(p: Minutia, q: Minutia, qx: real, qy: real)
    requires Distance(p, qx, qy) == Distance(q, qx, qy) < Threshold
    ensures RemoveNearest([p, q], qx, qy) == [q]
  {
    var ms := [p, q];
    assert IsNearest(ms, qx, qy, 0);
    RemoveNearestSpec(ms, qx, qy);
    assert ms[..0] + ms[1..] == [q];
  }

  // ---------------------------------------------------------------------
  // Save-format choice
  // ---------------------------------------------------------------------

  /** The path components `pathlib` keeps: empty and "." components are dropped. */
  function Components(pieces: seq<string>): (r: seq<string>)
    ensures forall i :: 0 <= i < |r| ==> r[i] != "" && r[i] != "."
  {
    if |pieces| == 0 then []
    else if pieces[0] == "" || pieces[0] == "." then Components(pieces[1..])
    else [pieces[0]] + Components(pieces[1..])
  }

  /** Every kept component is one of the pieces. */
  lemma {:induction false} ComponentsArePieces(pieces: seq<string>)
    ensures forall i :: 0 <= i < |Components(pieces)| ==> Components(pieces)[i] in pieces
  {
    if |pieces| > 0 {
      ComponentsArePieces(pieces[1..]);
    }
  }

  lemma {:induction false} ComponentsAppend(a: seq<string>, b: seq<string>)
    ensures Components(a + b) == Components(a) + Components(b)
  {
    if |a| == 0 {
      assert a + b == b;
    } else {
      ComponentsAppend(a[1..], b);
      var ab := a + b;
      assert ab[0] == a[0] && ab[1..] == a[1..] + b;
      if a[0] != "" && a[0] != "." {
        assert Components(ab) == [a[0]] + (Components(a[1..]) + Components(b));
      }
    }
  }

  /** `PurePosixPath(path).name`: the last kept component, or "" when there is none. */
  function Name(path: string): (r: string)
    ensures r != "."
    ensures forall k :: 0 <= k < |r| ==> r[k] != '/'
  {
    SplitPiecesDelimiterFree(path, {'/'});
    ComponentsArePieces(Split(path, {'/'}));
    var parts := Components(Split(path, {'/'}));
    if |parts| == 0 then "" else parts[|parts| - 1]
  }

  /** `str.rfind('.')`: the position of the last point, or -1. */
  function LastPoint(name: string): (i: int)
    ensures -1 <= i < |name|
    ensures i >= 0 ==> name[i] == '.'
    ensures forall j :: i < j < |name| ==> name[j] != '.'
  {
    if |name| == 0 then -1
    else if name[|name| - 1] == '.' then |name| - 1
    else LastPoint(name[..|name| - 1])
  }

  /**
    `PurePath.suffix`: from the last point to the end, provided the point is
    neither the first nor the last character of the name; otherwise "".
   */
  function Suffix(name: string): (r: string)
    ensures r != "" ==>
      && 2 <= |r| < |name| && r == name[|name| - |r|..] && r[0] == '.'
      && forall j :: 1 <= j < |r| ==> r[j] != '.'
  {
    var i := LastPoint(name);
    if 0 < i < |name| - 1 then name[i..] else ""
  }

  /**
    A name has no suffix exactly when its last point, if any, is its first
    or its last character.
   */
  lemma SuffixEmptyIff(name: string)
    ensures Suffix(name) == "" <==>
      forall i :: 0 < i < |name| - 1 && name[i] == '.' ==> exists j :: i < j < |name| && name[j] == '.'
  {
    var p := LastPoint(name);
    if Suffix(name) != "" {
      assert 0 < p < |name| - 1 && name[p] == '.';
    }
  }

  /** A name `stem.ext` with a non-empty stem has the suffix `.ext`. */
  lemma SuffixOfStem(stem: string, ext: string)
    requires |stem| > 0 && |ext| > 0
    requires forall k :: 0 <= k < |ext| ==> ext[k] != '.'
    ensures Suffix(stem + "." + ext) == "." + ext
  {
    var name := stem + "." + ext;
    assert name[|stem|] == '.';
    assert forall j :: |stem| < j < |name| ==> name[j] == ext[j - |stem| - 1];
    var r := Suffix(name);
    assert LastPoint(name) == |stem|;
  }

  /** The last component of `dir/base` is `base`. */
  lemma NameOfJoin(dir: string, base: string)
    requires base != "" && base != "."
    requires forall k :: 0 <= k < |base| ==> base[k] != '/'
    ensures Name(dir + "/" + base) == base
  {
    SplitAtDelimiter(dir, '/', base, {'/'});
    assert dir + "/" + base == dir + ['/'] + base;
    SplitWithoutDelimiter(base, {'/'});
    ComponentsAppend(Split(dir, {'/'}), [base]);
    assert Components([base]) == [base] + Components([]);
  }

  /** What `save_minutiae_file` does with the chosen path. */
  datatype SaveChoice =
    | Dismissed                 // the dialog returned no path: nothing happens
    | Rejected(suffix: string)  // an error is shown and nothing is written
    | Encode(format: FileFormat)

  /** The encoder a non-empty save path's suffix selects. */
  function EncoderFor(suffix: string): (r: SaveChoice)
    ensures r != Dismissed
    ensures r == Encode(SIMPLE) <==> suffix == ".sim"
    ensures r == Encode(NBIST) <==> suffix == ".min"
    ensures r.Rejected? ==> r.suffix == suffix
  {
    if suffix == ".sim" then Encode(SIMPLE)
    else if suffix == ".min" then Encode(NBIST)
    else Rejected(suffix)
  }

  /**
    `save_minutiae_file`: no path means nothing happens; otherwise the
    extension of the file name chooses the encoder, `.sim` for SIMPLE and
    `.min` for NBIST, and any other extension writes nothing.
   */
  function ChooseEncoder(path: string): (r: SaveChoice)
    ensures r == Dismissed <==> path == ""
    ensures r == Encode(SIMPLE) <==> path != "" && Suffix(Name(path)) == ".sim"
    ensures r == Encode(NBIST) <==> path != "" && Suffix(Name(path)) == ".min"
    ensures r.Encode? ==> r.format == SIMPLE || r.format == NBIST
    ensures r.Rejected? ==> r.suffix == Suffix(Name(path)) && r.suffix != ".sim" && r.suffix != ".min"
  {
    if path == "" then Dismissed else EncoderFor(Suffix(Name(path)))
  }

  /**
    Saving to `dir/stem.ext` encodes SIMPLE for `sim`, NBIST for `min`, and
    is refused for every other extension.
   */
  lemma ChooseEncoderByExtension(dir: string, stem: string, ext: string)
    requires |stem| > 0 && |ext| > 0
    requires forall k :: 0 <= k < |stem| ==> stem[k] != '/'
    requires forall k :: 0 <= k < |ext| ==> ext[k] != '.' && ext[k] != '/'
    ensures ext == "sim" ==> ChooseEncoder(dir + "/" + stem + "." + ext) == Encode(SIMPLE)
    ensures ext == "min" ==> ChooseEncoder(dir + "/" + stem + "." + ext) == Encode(NBIST)
    ensures ext != "sim" && ext != "min" ==>
      ChooseEncoder(dir + "/" + stem + "." + ext) == Rejected("." + ext)
  {
    var path := dir + "/" + stem + "." + ext;
    SavedSuffix(dir, stem, ext);
    assert path != "" by { assert |path| > |dir|; }
    EncoderForExtension(ext);
  }

  /** `"." + ext` selects SIMPLE or NBIST exactly for `sim` and `min`. */
  lemma EncoderForExtension(ext: string)
    ensures ext == "sim" ==> EncoderFor("." + ext) == Encode(SIMPLE)
    ensures ext == "min" ==> EncoderFor("." + ext) == Encode(NBIST)
    ensures ext != "sim" && ext != "min" ==> EncoderFor("." + ext) == Rejected("." + ext)
  {
    DotPrefixInjective(ext, "sim");
    DotPrefixInjective(ext, "min");
  }

  lemma DotPrefixInjective(a: string, b: string)
    ensures "." + a == "." + b <==> a == b
  {
    assert ("." + a)[1..] == a && ("." + b)[1..] == b;
  }

  /** The suffix of the name of `dir/stem.ext` is `.ext`. */
  lemma SavedSuffix(dir: string, stem: string, ext: string)
    requires |stem| > 0 && |ext| > 0
    requires forall k :: 0 <= k < |stem| ==> stem[k] != '/'
    requires forall k :: 0 <= k < |ext| ==> ext[k] != '.' && ext[k] != '/'
    ensures Suffix(Name(dir + "/" + stem + "." + ext)) == "." + ext
  {
    var base := stem + "." + ext;
    assert dir + "/" + stem + "." + ext == dir + "/" + base;
    forall k | 0 <= k < |base| ensures base[k] != '/' {
      if k < |stem| { assert base[k] == stem[k]; }
      else if k > |stem| { assert base[k] == ext[k - |stem| - 1]; }
    }
    assert base != "" && base != "." by { assert |base| >= 3; }
    NameOfJoin(dir, base);
    SuffixOfStem(stem, ext);
  }
}

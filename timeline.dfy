/** The segmentation of a video timeline at cut points, as a specification:
    ordering the cut points, dropping or rejecting those beyond the duration,
    and the consecutive sub-clips that result. */
module Timeline {
  import opened Results

  // ---------------------------------------------------------------- ordering

  predicate NonDecreasing(s: seq<real>) {
    forall i, j :: 0 <= i < j < |s| ==> s[i] <= s[j]
  }

  /** The test the cutter performs: no adjacent pair `s[i] > s[i + 1]`. */
  predicate NoAdjacentInversion(s: seq<real>) {
    forall i :: 0 <= i < |s| - 1 ==> s[i] <= s[i + 1]
  }

  lemma {:induction false} AdjacentChain(s: seq<real>, i: int, j: int)
    requires NoAdjacentInversion(s)
    requires 0 <= i <= j < |s|
    ensures s[i] <= s[j]
    decreases j - i
  {
    if i < j {
      AdjacentChain(s, i + 1, j);
    }
  }

  /** Checking adjacent pairs decides sortedness of the whole sequence. */
  lemma AdjacentOrderIsOrder(s: seq<real>)
    ensures NoAdjacentInversion(s) <==> NonDecreasing(s)
  {
    if NoAdjacentInversion(s) {
      forall i, j | 0 <= i < j < |s|
        ensures s[i] <= s[j]
      {
        AdjacentChain(s, i, j);
      }
    }
  }

  /** Inserts `x` into a sorted sequence before the first element not below it. */
  function Insert(x: real, s: seq<real>): (r: seq<real>)
    ensures |r| == |s| + 1
    ensures multiset(r) == multiset(s) + multiset{x}
    decreases |s|
  {
    if s == [] || x <= s[0] then [x] + s
    else
      assert s == [s[0]] + s[1..];
      [s[0]] + Insert(x, s[1..])
  }

  predicate AllAtLeast(s: seq<real>, lo: real) {
    forall k :: 0 <= k < |s| ==> lo <= s[k]
  }

  lemma {:induction false} InsertAtLeast(x: real, s: seq<real>, lo: real)
    requires lo <= x && AllAtLeast(s, lo)
    ensures AllAtLeast(Insert(x, s), lo)
    decreases |s|
  {
    if s != [] && x > s[0] {
      InsertAtLeast(x, s[1..], lo);
    }
  }

  lemma ConsSorted(h: real, t: seq<real>)
    requires NonDecreasing(t) && AllAtLeast(t, h)
    ensures NonDecreasing([h] + t)
  {
  }

  lemma {:induction false} InsertSorted(x: real, s: seq<real>)
    requires NonDecreasing(s)
    ensures NonDecreasing(Insert(x, s))
    decreases |s|
  {
    if s != [] && x > s[0] {
      InsertSorted(x, s[1..]);
      InsertAtLeast(x, s[1..], s[0]);
      ConsSorted(s[0], Insert(x, s[1..]));
    }
  }

  /** The sorted copy of `s` (Python's `sorted`). */
  function SortedCopy(s: seq<real>): (r: seq<real>)
    ensures |r| == |s|
    ensures NonDecreasing(r)
    ensures multiset(r) == multiset(s)
    decreases |s|
  {
    if s == [] then []
    else
      var t := SortedCopy(s[1..]);
      assert s == [s[0]] + s[1..];
      InsertSorted(s[0], t);
      Insert(s[0], t)
  }

  /** The first element of a sorted sequence is its least. */
  lemma SortedFirstIsMin(s: seq<real>, x: real)
    requires NonDecreasing(s) && x in multiset(s)
    ensures s[0] <= x
  {
    assert x in s;
  }

  lemma MultisetTail(s: seq<real>)
    requires s != []
    ensures multiset(s) == multiset{s[0]} + multiset(s[1..])
  {
    assert s == [s[0]] + s[1..];
  }

  lemma MultisetCancel(x: real, p: multiset<real>, q: multiset<real>)
    requires multiset{x} + p == multiset{x} + q
    ensures p == q
  {
    assert p == (multiset{x} + p) - multiset{x};
    assert q == (multiset{x} + q) - multiset{x};
  }

  lemma SortedTail(s: seq<real>)
    requires NonDecreasing(s) && s != []
    ensures NonDecreasing(s[1..])
  {
  }

  lemma ConsEqual(a: seq<real>, b: seq<real>)
    requires a != [] && b != [] && a[0] == b[0] && a[1..] == b[1..]
    ensures a == b
  {
    assert a == [a[0]] + a[1..] && b == [b[0]] + b[1..];
  }

  /** Two sorted sequences holding the same elements are equal. */
  lemma {:induction false} SortedUnique(a: seq<real>, b: seq<real>)
    requires NonDecreasing(a) && NonDecreasing(b)
    requires multiset(a) == multiset(b)
    ensures a == b
    decreases |a|
  {
    assert |b| == |multiset(b)| == |multiset(a)| == |a|;
    if a != [] {
      assert a[0] == b[0] by {
        assert a[0] in multiset(a) && b[0] in multiset(b);
        SortedFirstIsMin(b, a[0]);
        SortedFirstIsMin(a, b[0]);
      }
      assert multiset(a[1..]) == multiset(b[1..]) by {
        MultisetTail(a);
        MultisetTail(b);
        MultisetCancel(a[0], multiset(a[1..]), multiset(b[1..]));
      }
      SortedTail(a);
      SortedTail(b);
      SortedUnique(a[1..], b[1..]);
      ConsEqual(a, b);
    }
  }

  /** The cut points after the inversion check: unchanged when no adjacent pair
      is out of order, otherwise replaced by their sorted copy. */
  function Normalized(points: seq<real>): (r: seq<real>)
    ensures |r| == |points| && NonDecreasing(r) && multiset(r) == multiset(points)
  {
    AdjacentOrderIsOrder(points);
    if NoAdjacentInversion(points) then points else SortedCopy(points)
  }

  /** Sorting only on an inversion gives the same list as always sorting, and
      an ordered list is left exactly as it was. */
  lemma NormalizedIsSortedCopy(points: seq<real>)
    ensures Normalized(points) == SortedCopy(points)
    ensures NonDecreasing(points) ==> Normalized(points) == points
    ensures NonDecreasing(Normalized(points)) && multiset(Normalized(points)) == multiset(points)
  {
    AdjacentOrderIsOrder(points);
    if NoAdjacentInversion(points) {
      SortedUnique(points, SortedCopy(points));
    }
  }

  /** The last element of a sorted sequence is its largest. */
  lemma SortedLastIsMax(s: seq<real>, x: real)
    requires NonDecreasing(s) && x in s
    ensures x <= s[|s| - 1]
  {
  }

  // ------------------------------------------------------------- truncation

  /** Tolerant mode: drop trailing points while the last one exceeds the duration. */
  function Truncated(points: seq<real>, duration: real): (r: seq<real>)
    ensures |r| <= |points| && r == points[..|r|]
    ensures r == [] || r[|r| - 1] <= duration
    ensures forall k :: |r| <= k < |points| ==> points[k] > duration
    decreases |points|
  {
    if |points| >= 1 && points[|points| - 1] > duration then Truncated(points[..|points| - 1], duration)
    else points
  }

  /** On a sorted list truncation keeps exactly the points within the duration. */
  lemma TruncatedOfSorted(points: seq<real>, duration: real)
    requires NonDecreasing(points)
    ensures NonDecreasing(Truncated(points, duration))
    ensures forall k :: 0 <= k < |points| ==> (k < |Truncated(points, duration)| <==> points[k] <= duration)
    ensures forall x :: x in Truncated(points, duration) <==> x in points && x <= duration
  {
    var r := Truncated(points, duration);
    forall k | 0 <= k < |r|
      ensures points[k] <= duration
    {
      assert r[k] == points[k];
      assert r[k] <= r[|r| - 1];
    }
    forall x | x in points && x <= duration
      ensures x in r
    {
      var k :| 0 <= k < |points| && points[k] == x;
      assert r[k] == points[k];
    }
  }

  // ------------------------------------------------------------------ clips

  /** One output sub-clip: written to `{index}.mp4`, covering `start` to `end`. */
  datatype Clip = Clip(index: nat, start: real, end: real)

  /** The boundaries the clip loop walks: 0, the cut points, then the duration. */
  function Boundaries(points: seq<real>, duration: real): (b: seq<real>)
    ensures |b| == |points| + 2
    ensures b[0] == 0.0 && b[|b| - 1] == duration
    ensures forall k :: 0 <= k < |points| ==> b[k + 1] == points[k]
  {
    [0.0] + points + [duration]
  }

  /** Clip `k` runs from boundary `k` to boundary `k + 1`. */
  function Clips(points: seq<real>, duration: real): (r: seq<Clip>)
    ensures |r| == |points| + 1
  {
    var b := Boundaries(points, duration);
    seq(|points| + 1, k requires 0 <= k < |points| + 1 => Clip(k, b[k], b[k + 1]))
  }

  lemma ClipAt(points: seq<real>, duration: real, k: nat)
    requires k <= |points|
    ensures Clips(points, duration)[k] ==
      Clip(k, Boundaries(points, duration)[k], Boundaries(points, duration)[k + 1])
  {
  }

  /** The clips are numbered 0..n in order and tile the timeline from 0 to the duration. */
  ghost predicate Tiles(clips: seq<Clip>, duration: real) {
    && |clips| >= 1
    && (forall k :: 0 <= k < |clips| ==> clips[k].index == k)
    && clips[0].start == 0.0
    && (forall k :: 0 <= k < |clips| - 1 ==> clips[k].end == clips[k + 1].start)
    && clips[|clips| - 1].end == duration
  }

  /** The cut points a tiling was made at: every clip end but the last. */
  function CutsOf(clips: seq<Clip>): (cuts: seq<real>)
    requires |clips| >= 1
    ensures |cuts| == |clips| - 1
    ensures forall k :: 0 <= k < |cuts| ==> cuts[k] == clips[k].end
  {
    seq(|clips| - 1, k requires 0 <= k < |clips| - 1 => clips[k].end)
  }

  /** n cut points give n + 1 clips numbered 0..n that tile [0, duration];
      no cut points give the single clip (0, duration). */
  lemma ClipsTile(points: seq<real>, duration: real)
    ensures Tiles(Clips(points, duration), duration)
    ensures |Clips(points, duration)| == |points| + 1
    ensures points == [] ==> Clips(points, duration) == [Clip(0, 0.0, duration)]
  {
  }

  /** Round trip: the cut points are recovered from the clips. */
  lemma CutsOfClips(points: seq<real>, duration: real)
    ensures CutsOf(Clips(points, duration)) == points
  {
  }

  /** Round trip the other way: every tiling is the clips of its own cut points. */
  lemma {:induction false} TilingIsClips(clips: seq<Clip>, duration: real)
    requires Tiles(clips, duration)
    ensures Clips(CutsOf(clips), duration) == clips
  {
    var r := Clips(CutsOf(clips), duration);
    var b := Boundaries(CutsOf(clips), duration);
    forall k | 0 <= k < |clips|
      ensures r[k] == clips[k]
    {
      assert b[k + 1] == clips[k].end;
      if k > 0 {
        assert b[k] == clips[k - 1].end == clips[k].start;
      }
    }
  }

  /** With every cut point at least 0, sorted and within the duration, no clip
      starts after it ends. */
  lemma ClipsWellFormed(points: seq<real>, duration: real)
    requires NonDecreasing(points)
    requires 0.0 <= duration
    requires forall x :: x in points ==> 0.0 <= x <= duration
    ensures forall c :: c in Clips(points, duration) ==> c.start <= c.end
  {
    var r := Clips(points, duration);
    var b := Boundaries(points, duration);
    forall k | 0 <= k < |r|
      ensures r[k].start <= r[k].end
    {
      assert r[k] == Clip(k, b[k], b[k + 1]);
      if 0 < k {
        assert points[k - 1] in points;
      }
      if k < |points| {
        assert points[k] in points;
      }
      if 0 < k < |points| {
        assert b[k] == points[k - 1] && b[k + 1] == points[k];
      } else if k == 0 && 0 < |points| {
        assert b[1] == points[0];
      } else if 0 < k {
        assert b[k] == points[k - 1];
      }
    }
  }

  // ----------------------------------------------------------- file names

  function DigitChar(d: nat): (c: char)
    requires d < 10
    ensures '0' <= c <= '9'
    ensures c == '0' <==> d == 0
  {
    ('0' as int + d) as char
  }

  /** The decimal text of `n`, as `f"{n}"` prints it. */
  function NatToString(n: nat): (s: string)
    ensures |s| >= 1
    ensures forall k :: 0 <= k < |s| ==> '0' <= s[k] <= '9'
    ensures n < 10 <==> |s| == 1
    ensures s[0] == '0' ==> n == 0
  {
    if n < 10 then [DigitChar(n)] else NatToString(n / 10) + [DigitChar(n % 10)]
  }

  lemma {:induction false} NatToStringInjective(m: nat, n: nat)
    requires NatToString(m) == NatToString(n)
    ensures m == n
  {
    if 10 <= m {
      var s := NatToString(m);
      assert s == NatToString(m / 10) + [DigitChar(m % 10)];
      assert s == NatToString(n / 10) + [DigitChar(n % 10)];
      assert s[..|s| - 1] == NatToString(m / 10) == NatToString(n / 10);
      NatToStringInjective(m / 10, n / 10);
    }
  }

  predicate AllDigits(s: string) {
    forall k :: 0 <= k < |s| ==> '0' <= s[k] <= '9'
  }

  /** The number a string of decimal digits denotes. */
  function DecimalValue(s: string): nat
    requires AllDigits(s)
    decreases |s|
  {
    if s == [] then 0
    else DecimalValue(s[..|s| - 1]) * 10 + (s[|s| - 1] as int - '0' as int)
  }

  /** Printing a number and reading it back gives the number. */
  lemma {:induction false} DecimalValueOfNatToString(n: nat)
    ensures AllDigits(NatToString(n)) && DecimalValue(NatToString(n)) == n
  {
    var s := NatToString(n);
    if 10 <= n {
      DecimalValueOfNatToString(n / 10);
      assert s[..|s| - 1] == NatToString(n / 10);
    }
  }

  /** The output file of a clip: `{index}.mp4`, the index in decimal digits
      followed by the extension. */
  function FileName(c: Clip): (name: string)
    ensures |name| >= 5 && name[|name| - 4..] == ".mp4"
    ensures AllDigits(name[..|name| - 4]) && DecimalValue(name[..|name| - 4]) == c.index
    ensures name[0] != '0' || |name| == 5
  {
    var digits := NatToString(c.index);
    DecimalValueOfNatToString(c.index);
    assert (digits + ".mp4")[..|digits|] == digits;
    digits + ".mp4"
  }

  /** The clips of one run go to pairwise distinct files: none overwrites another. */
  lemma ClipFileNamesDistinct(points: seq<real>, duration: real, i: int, j: int)
    requires 0 <= i < j < |Clips(points, duration)|
    ensures FileName(Clips(points, duration)[i]) != FileName(Clips(points, duration)[j])
  {
    var r := Clips(points, duration);
    if FileName(r[i]) == FileName(r[j]) {
      var a, b := NatToString(i), NatToString(j);
      assert a + ".mp4" == b + ".mp4";
      assert |a| == |b|;
      assert a == (a + ".mp4")[..|a|] == (b + ".mp4")[..|b|] == b;
      NatToStringInjective(i, j);
    }
  }

  // ----------------------------------------------------------- segmentation

  /** The duration check applied to the ordered cut points: tolerant mode drops
      trailing points beyond the duration; strict mode raises IndexError on an
      empty list and ValueError when the last point exceeds the duration. */
  function Bounded(ordered: seq<real>, duration: real, exceedOk: bool): (r: Result<seq<real>>)
    ensures r.Ok? ==> |r.value| <= |ordered| && r.value == ordered[..|r.value|]
    ensures r.Err? ==> !exceedOk
  {
    if exceedOk then Ok(Truncated(ordered, duration))
    else if |ordered| == 0 then Err(IndexError)
    else if ordered[|ordered| - 1] > duration then Err(ValueError(ordered[|ordered| - 1], duration))
    else Ok(ordered)
  }

  /** The clips the cutter writes for the given cut points, or the error it raises. */
  function Segmentation(points: seq<real>, duration: real, exceedOk: bool): (r: Result<seq<Clip>>)
    ensures r.Ok? ==> |r.value| >= 1
  {
    match Bounded(Normalized(points), duration, exceedOk)
    case Err(e) => Err(e)
    case Ok(kept) => Ok(Clips(kept, duration))
  }

  /** Tolerant mode never fails; on sorted points it keeps exactly those within
      the duration. */
  lemma BoundedTolerant(ordered: seq<real>, duration: real)
    requires NonDecreasing(ordered)
    ensures Bounded(ordered, duration, true).Ok?
    ensures var kept := Bounded(ordered, duration, true).value;
      && |kept| <= |ordered|
      && kept == ordered[..|kept|]
      && NonDecreasing(kept)
      && (forall k :: 0 <= k < |ordered| ==> (k < |kept| <==> ordered[k] <= duration))
      && (forall x :: x in kept <==> x in ordered && x <= duration)
  {
    TruncatedOfSorted(ordered, duration);
  }

  /** Strict mode on sorted points: IndexError exactly on the empty list,
      ValueError exactly when some point exceeds the duration, and otherwise the
      list unchanged. */
  lemma BoundedStrict(ordered: seq<real>, duration: real)
    requires NonDecreasing(ordered)
    ensures Bounded(ordered, duration, false) == Err(IndexError) <==> ordered == []
    ensures Bounded(ordered, duration, false).Err? <==>
      ordered == [] || exists x :: x in ordered && x > duration
    ensures ordered != [] && ordered[|ordered| - 1] > duration ==>
      Bounded(ordered, duration, false) == Err(ValueError(ordered[|ordered| - 1], duration))
    ensures Bounded(ordered, duration, false).Ok? ==> Bounded(ordered, duration, false).value == ordered
  {
    if ordered != [] {
      assert ordered[|ordered| - 1] in ordered;
    }
    if ordered != [] && exists x :: x in ordered && x > duration {
      var x :| x in ordered && x > duration;
      SortedLastIsMax(ordered, x);
    }
  }

  /** Whatever the policy, a successful check leaves sorted points that are a
      prefix of its input and all within the duration. */
  lemma BoundedWithin(ordered: seq<real>, duration: real, exceedOk: bool)
    requires NonDecreasing(ordered)
    requires Bounded(ordered, duration, exceedOk).Ok?
    ensures var kept := Bounded(ordered, duration, exceedOk).value;
      && |kept| <= |ordered|
      && kept == ordered[..|kept|]
      && NonDecreasing(kept)
      && (forall x :: x in kept ==> x <= duration)
  {
    if exceedOk {
      BoundedTolerant(ordered, duration);
    } else {
      forall x | x in ordered
        ensures x <= duration
      {
        SortedLastIsMax(ordered, x);
      }
    }
  }

  /** A point is in a sequence exactly when it is in any rearrangement of it. */
  lemma SameElements(p: seq<real>, q: seq<real>, x: real)
    requires multiset(p) == multiset(q)
    ensures x in p <==> x in q
  {
    assert x in p <==> x in multiset(p);
    assert x in q <==> x in multiset(q);
  }

  lemma PrefixMember(s: seq<real>, prefix: seq<real>, x: real)
    requires |prefix| <= |s| && prefix == s[..|prefix|]
    requires x in prefix
    ensures x in s
  {
    var k :| 0 <= k < |prefix| && prefix[k] == x;
    assert s[k] == x;
  }

  /** Any successful segmentation tiles the timeline with clips numbered 0..n,
      and its cut points are a sorted prefix of the sorted input, each within the
      duration. */
  lemma SegmentationTiles(points: seq<real>, duration: real, exceedOk: bool)
    requires Segmentation(points, duration, exceedOk).Ok?
    ensures Tiles(Segmentation(points, duration, exceedOk).value, duration)
    ensures var cuts := CutsOf(Segmentation(points, duration, exceedOk).value);
      && |cuts| <= |points|
      && cuts == SortedCopy(points)[..|cuts|]
      && (forall x :: x in cuts ==> x <= duration)
  {
    NormalizedIsSortedCopy(points);
    var ordered := Normalized(points);
    BoundedWithin(ordered, duration, exceedOk);
    var kept := Bounded(ordered, duration, exceedOk).value;
    var clips := Clips(kept, duration);
    assert Segmentation(points, duration, exceedOk).value == clips;
    ClipsTile(kept, duration);
    CutsOfClips(kept, duration);
    assert CutsOf(clips) == kept == SortedCopy(points)[..|kept|];
  }

  /** Tolerant mode never fails; its cut points are the sorted input up to the
      first point beyond the duration: every point within the duration, with its
      repetitions, in ascending order. */
  lemma SegmentationTolerant(points: seq<real>, duration: real)
    ensures Segmentation(points, duration, true).Ok?
    ensures var cuts := CutsOf(Segmentation(points, duration, true).value);
      && NonDecreasing(cuts)
      && |cuts| <= |points|
      && cuts == SortedCopy(points)[..|cuts|]
      && (forall k :: 0 <= k < |points| ==> (k < |cuts| <==> SortedCopy(points)[k] <= duration))
      && (forall x :: x in cuts <==> x in points && x <= duration)
  {
    NormalizedIsSortedCopy(points);
    var ordered := Normalized(points);
    BoundedTolerant(ordered, duration);
    var kept := Bounded(ordered, duration, true).value;
    CutsOfClips(kept, duration);
    forall x
      ensures x in ordered <==> x in points
    {
      SameElements(ordered, points, x);
    }
  }

  /** The last element of a sorted arrangement of `points` is their maximum. */
  lemma SortedArrangementMax(ordered: seq<real>, points: seq<real>)
    requires NonDecreasing(ordered) && multiset(ordered) == multiset(points)
    ensures |ordered| == |points|
    ensures ordered != [] ==> ordered[|ordered| - 1] in points
    ensures ordered != [] ==> forall x :: x in points ==> x <= ordered[|ordered| - 1]
  {
    assert |ordered| == |multiset(ordered)| == |multiset(points)| == |points|;
    if ordered != [] {
      var m := ordered[|ordered| - 1];
      assert m in multiset(ordered);
      forall x | x in points
        ensures x <= m
      {
        assert x in multiset(ordered);
        SortedLastIsMax(ordered, x);
      }
    }
  }

  lemma StrictOverflow(points: seq<real>, duration: real)
    requires points != [] && exists x :: x in points && x > duration
    ensures Segmentation(points, duration, false) == Err(ValueError(SortedCopy(points)[|points| - 1], duration))
  {
    NormalizedIsSortedCopy(points);
    var ordered := SortedCopy(points);
    SortedArrangementMax(ordered, points);
    var x :| x in points && x > duration;
    assert ordered[|ordered| - 1] > duration;
    assert Bounded(ordered, duration, false) == Err(ValueError(ordered[|ordered| - 1], duration));
  }

  /** Strict mode fails exactly when the list is empty (IndexError) or some point
      exceeds the duration (ValueError naming the largest point and the
      duration); otherwise the clips are those of the sorted list, with no point
      dropped. */
  lemma SegmentationStrict(points: seq<real>, duration: real)
    ensures Segmentation(points, duration, false) == Err(IndexError) <==> points == []
    ensures Segmentation(points, duration, false).Err? <==>
      points == [] || exists x :: x in points && x > duration
    ensures points != [] && (exists x :: x in points && x > duration) ==>
      && Segmentation(points, duration, false) == Err(ValueError(SortedCopy(points)[|points| - 1], duration))
      && SortedCopy(points)[|points| - 1] in points
      && (forall x :: x in points ==> x <= SortedCopy(points)[|points| - 1])
    ensures Segmentation(points, duration, false).Ok? ==>
      Segmentation(points, duration, false).value == Clips(SortedCopy(points), duration)
  {
    NormalizedIsSortedCopy(points);
    var ordered := Normalized(points);
    BoundedStrict(ordered, duration);
    SortedArrangementMax(ordered, points);
    if points != [] && (exists x :: x in points && x > duration) {
      StrictOverflow(points, duration);
    }
    assert (exists x :: x in ordered && x > duration) <==> (exists x :: x in points && x > duration) by {
      forall x
        ensures x in ordered <==> x in points
      {
        SameElements(ordered, points, x);
      }
    }
  }

  /** The result depends only on which points there are, not on their order. */
  lemma SegmentationOrderIndependent(p: seq<real>, q: seq<real>, duration: real, exceedOk: bool)
    requires multiset(p) == multiset(q)
    ensures Segmentation(p, duration, exceedOk) == Segmentation(q, duration, exceedOk)
  {
    NormalizedIsSortedCopy(p);
    NormalizedIsSortedCopy(q);
    SortedUnique(SortedCopy(p), SortedCopy(q));
  }

  /** With a non-negative duration and non-negative cut points, no clip of a
      successful segmentation starts after it ends. */
  lemma SegmentationWellFormed(points: seq<real>, duration: real, exceedOk: bool)
    requires 0.0 <= duration
    requires forall x :: x in points ==> 0.0 <= x
    requires Segmentation(points, duration, exceedOk).Ok?
    ensures forall c :: c in Segmentation(points, duration, exceedOk).value ==> c.start <= c.end
  {
    NormalizedIsSortedCopy(points);
    var ordered := Normalized(points);
    BoundedWithin(ordered, duration, exceedOk);
    var kept := Bounded(ordered, duration, exceedOk).value;
    forall x | x in kept
      ensures 0.0 <= x <= duration
    {
      PrefixMember(ordered, kept, x);
      SameElements(ordered, points, x);
    }
    ClipsWellFormed(kept, duration);
  }

  lemma SegmentationExamples()
    ensures Segmentation([4.0, 7.0], 10.0, false) ==
      Ok([Clip(0, 0.0, 4.0), Clip(1, 4.0, 7.0), Clip(2, 7.0, 10.0)])
    ensures Segmentation([12.0], 10.0, true) == Ok([Clip(0, 0.0, 10.0)])
    ensures Segmentation([12.0], 10.0, false) == Err(ValueError(12.0, 10.0))
  {
    assert Normalized([4.0, 7.0]) == [4.0, 7.0];
    assert Bounded([4.0, 7.0], 10.0, false) == Ok([4.0, 7.0]);
    var c := Clips([4.0, 7.0], 10.0);
    assert Boundaries([4.0, 7.0], 10.0) == [0.0, 4.0, 7.0, 10.0];
    assert c[0] == Clip(0, 0.0, 4.0) && c[1] == Clip(1, 4.0, 7.0) && c[2] == Clip(2, 7.0, 10.0);
    assert c == [Clip(0, 0.0, 4.0), Clip(1, 4.0, 7.0), Clip(2, 7.0, 10.0)];
    assert Normalized([12.0]) == [12.0];
    assert [12.0][..0] == [];
    assert Truncated([12.0], 10.0) == [];
    assert Boundaries([], 10.0) == [0.0, 10.0];
    assert Clips([], 10.0) == [Clip(0, 0.0, 10.0)];
  }
}

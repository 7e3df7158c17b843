/** The tag ranking policy of `tagLimitSort` (minihub.go:295-314): tags named "latest"
    first, in their original order, then at most four of the other tags, newest commit
    date first. */
module TagRanking {
  import opened Types

  /** The tag name that is always shown first. */
  const PINNED_TAG: string := "latest"

  /** How many of the other tags are kept. */
  const MAX_OTHERS: nat := 4

  /** `time.Time{}.Unix()`: the Unix seconds of Go's zero time, which `time.Parse`
      returns when the date does not parse. */
  const ZERO_TIME_UNIX: int := -62135596800

  /** `time.Parse` with the commit-date layout "Mon Jan 2 15:04:05 2006 -0700",
      giving Unix seconds, or None when the text does not parse. */
  type DateParser = string -> Option<int>

  /** The Unix seconds the comparator of `sort.Slice` compares a tag by. */
  function Key(parse: DateParser, t: TemplateTag): (k: int)
    ensures parse(t.info.config.labels.commitDate).Some? ==> k == parse(t.info.config.labels.commitDate).value
    ensures parse(t.info.config.labels.commitDate).None? ==> k == ZERO_TIME_UNIX
  {
    match parse(t.info.config.labels.commitDate)
    case Some(unix) => unix
    case None => ZERO_TIME_UNIX
  }

  predicate IsPinned(t: TemplateTag) {
    t.name == PINNED_TAG
  }

  /** The tags named "latest", in their original order (`first`). */
  function Pinned(tags: seq<TemplateTag>): (r: seq<TemplateTag>)
    ensures forall i :: 0 <= i < |r| ==> IsPinned(r[i])
  {
    if tags == [] then []
    else
      var last := tags[|tags| - 1];
      Pinned(tags[..|tags| - 1]) + (if IsPinned(last) then [last] else [])
  }

  /** The other tags, in their original order (`other` before sorting). */
  function Others(tags: seq<TemplateTag>): (r: seq<TemplateTag>)
    ensures forall i :: 0 <= i < |r| ==> !IsPinned(r[i])
  {
    if tags == [] then []
    else
      var last := tags[|tags| - 1];
      Others(tags[..|tags| - 1]) + (if IsPinned(last) then [] else [last])
  }

  /** Newest commit date first. */
  ghost predicate SortedByDate(parse: DateParser, s: seq<TemplateTag>) {
    forall i, j :: 0 <= i < j < |s| ==> Key(parse, s[i]) >= Key(parse, s[j])
  }

  /** `other[0:4]` when there are more than four. */
  function Cap(s: seq<TemplateTag>): (r: seq<TemplateTag>)
    ensures |r| == if |s| > MAX_OTHERS then MAX_OTHERS else |s|
    ensures r == s[..|r|]
  {
    if |s| > MAX_OTHERS then s[..MAX_OTHERS] else s
  }

  /** `r` is one of the results `tagLimitSort(tags)` may return: `sort.Slice` is not
      stable, so any ordering of the other tags newest first is allowed. */
  ghost predicate RankingOf(parse: DateParser, tags: seq<TemplateTag>, r: seq<TemplateTag>) {
    exists s :: SortedByDate(parse, s) && multiset(s) == multiset(Others(tags)) && r == Pinned(tags) + Cap(s)
  }

  /** `sort.Slice(other, ...)`: sorts the array in place, newest commit date first. */
  method SortByDate(parse: DateParser, a: array<TemplateTag>)
    modifies a
    ensures SortedByDate(parse, a[..])
    ensures multiset(a[..]) == multiset(old(a[..]))
  {
    var i := 0;
    while i < a.Length
      invariant 0 <= i <= a.Length
      invariant forall p, q :: 0 <= p < q < i ==> Key(parse, a[p]) >= Key(parse, a[q])
      invariant multiset(a[..]) == multiset(old(a[..]))
    {
      var j := i;
      while j > 0 && Key(parse, a[j - 1]) < Key(parse, a[j])
        invariant 0 <= j <= i
        invariant multiset(a[..]) == multiset(old(a[..]))
        invariant forall p, q :: 0 <= p < q <= i && p != j && q != j ==> Key(parse, a[p]) >= Key(parse, a[q])
        invariant forall q :: j < q <= i ==> Key(parse, a[j]) > Key(parse, a[q])
      {
        Swap(a, j - 1, j);
        j := j - 1;
      }
      i := i + 1;
    }
  }

  /** Exchanges two neighbouring elements. */
  method Swap(a: array<TemplateTag>, i: nat, j: nat)
    requires i < j < a.Length
    modifies a
    ensures a[i] == old(a[j]) && a[j] == old(a[i])
    ensures forall k :: 0 <= k < a.Length && k != i && k != j ==> a[k] == old(a[k])
    ensures multiset(a[..]) == multiset(old(a[..]))
  {
    a[i], a[j] := a[j], a[i];
  }

  /** `tagLimitSort`: partitions, sorts the other tags, keeps four of them and puts
      the "latest" tags in front. */
  method TagLimitSort(parse: DateParser, tags: seq<TemplateTag>) returns (r: seq<TemplateTag>)
    ensures RankingOf(parse, tags, r)
  {
    var first: seq<TemplateTag> := [];
    var other: seq<TemplateTag> := [];
    for i := 0 to |tags|
      invariant first == Pinned(tags[..i])
      invariant other == Others(tags[..i])
    {
      assert tags[..i + 1][..i] == tags[..i];
      if tags[i].name == PINNED_TAG {
        first := first + [tags[i]];
      } else {
        other := other + [tags[i]];
      }
    }
    assert tags[..|tags|] == tags;
    var a := new TemplateTag[|other|](k requires 0 <= k < |other| => other[k]);
    assert a[..] == other;
    SortByDate(parse, a);
    ghost var sorted := a[..];
    var kept := a[..];
    if a.Length > MAX_OTHERS {
      kept := a[..MAX_OTHERS];
    }
    r := first + kept;
    assert SortedByDate(parse, sorted) && multiset(sorted) == multiset(Others(tags)) && r == Pinned(tags) + Cap(sorted);
  }

  /** Partitioning neither loses nor duplicates a tag. */
  lemma {:induction false} PartitionKeepsTags(tags: seq<TemplateTag>)
    ensures multiset(Pinned(tags)) + multiset(Others(tags)) == multiset(tags)
    ensures |Pinned(tags)| + |Others(tags)| == |tags|
  {
    if tags != [] {
      var init, last := tags[..|tags| - 1], tags[|tags| - 1];
      PartitionKeepsTags(init);
      assert tags == init + [last];
      assert multiset(tags) == multiset(init) + multiset{last};
      if IsPinned(last) {
        assert Pinned(tags) == Pinned(init) + [last];
        assert Others(tags) == Others(init);
      } else {
        assert Pinned(tags) == Pinned(init);
        assert Others(tags) == Others(init) + [last];
      }
    }
  }

  /** Every element of the sorted other tags is one of the other tags, so not "latest". */
  lemma SortedOthersUnpinned(parse: DateParser, tags: seq<TemplateTag>, s: seq<TemplateTag>)
    requires multiset(s) == multiset(Others(tags))
    ensures forall i :: 0 <= i < |s| ==> !IsPinned(s[i])
  {
    forall i | 0 <= i < |s|
      ensures !IsPinned(s[i])
    {
      assert s[i] in multiset(Others(tags));
      var k :| 0 <= k < |Others(tags)| && Others(tags)[k] == s[i];
    }
  }

  /** The "latest" tags come first, in their original order, and every "latest" tag
      precedes every other tag. */
  lemma PinnedFirst(parse: DateParser, tags: seq<TemplateTag>, r: seq<TemplateTag>)
    requires RankingOf(parse, tags, r)
    ensures |Pinned(tags)| <= |r| && r[..|Pinned(tags)|] == Pinned(tags)
    ensures forall i, j :: 0 <= i < |r| && 0 <= j < |r| && IsPinned(r[i]) && !IsPinned(r[j]) ==> i < j
  {
    var s :| SortedByDate(parse, s) && multiset(s) == multiset(Others(tags)) && r == Pinned(tags) + Cap(s);
    SortedOthersUnpinned(parse, tags, s);
    var n := |Pinned(tags)|;
    forall i | n <= i < |r|
      ensures !IsPinned(r[i])
    {
      assert r[i] == Cap(s)[i - n] == s[i - n];
    }
  }

  /** The kept other tags are sorted newest first, and there are `min(4, #others)` of them. */
  lemma KeptNewestFirst(parse: DateParser, tags: seq<TemplateTag>, r: seq<TemplateTag>)
    requires RankingOf(parse, tags, r)
    ensures |r| == |Pinned(tags)| + (if |Others(tags)| > MAX_OTHERS then MAX_OTHERS else |Others(tags)|)
    ensures SortedByDate(parse, r[|Pinned(tags)|..])
  {
    var s :| SortedByDate(parse, s) && multiset(s) == multiset(Others(tags)) && r == Pinned(tags) + Cap(s);
    assert |s| == |multiset(s)| == |multiset(Others(tags))| == |Others(tags)|;
    assert r[|Pinned(tags)|..] == Cap(s);
  }

  /** A tag whose date did not parse is ranked after every kept tag whose date parsed
      to a time later than Go's zero time. */
  lemma UnparsableRankedLast(parse: DateParser, tags: seq<TemplateTag>, r: seq<TemplateTag>)
    requires RankingOf(parse, tags, r)
    ensures |Pinned(tags)| <= |r|
    ensures var kept := r[|Pinned(tags)|..];
            forall i, j ::
              0 <= i < |kept| && 0 <= j < |kept| &&
              parse(kept[i].info.config.labels.commitDate).None? &&
              parse(kept[j].info.config.labels.commitDate).Some? &&
              parse(kept[j].info.config.labels.commitDate).value > ZERO_TIME_UNIX
              ==> j < i
  {
    KeptNewestFirst(parse, tags, r);
    UnparsableLast(parse, r[|Pinned(tags)|..]);
  }

  /** In a sequence sorted newest first, a tag whose date did not parse comes after
      every tag dated after Go's zero time. */
  lemma UnparsableLast(parse: DateParser, s: seq<TemplateTag>)
    requires SortedByDate(parse, s)
    ensures forall i, j ::
              0 <= i < |s| && 0 <= j < |s| &&
              parse(s[i].info.config.labels.commitDate).None? &&
              parse(s[j].info.config.labels.commitDate).Some? &&
              parse(s[j].info.config.labels.commitDate).value > ZERO_TIME_UNIX
              ==> j < i
  {
    forall i, j |
      0 <= i < |s| && 0 <= j < |s| &&
      parse(s[i].info.config.labels.commitDate).None? &&
      parse(s[j].info.config.labels.commitDate).Some? &&
      parse(s[j].info.config.labels.commitDate).value > ZERO_TIME_UNIX
      ensures j < i
    {
      SortedOrder(parse, s, i, j);
    }
  }

  /** In a sequence sorted newest first, a strictly newer tag comes earlier. */
  lemma SortedOrder(parse: DateParser, s: seq<TemplateTag>, a: nat, b: nat)
    requires SortedByDate(parse, s) && a < |s| && b < |s|
    requires Key(parse, s[a]) < Key(parse, s[b])
    ensures b < a
  {
  }

  /** Every other tag that was dropped is no newer than every other tag that was kept. */
  lemma DroppedNotNewer(parse: DateParser, tags: seq<TemplateTag>, r: seq<TemplateTag>)
    requires RankingOf(parse, tags, r)
    ensures |Pinned(tags)| <= |r|
    ensures forall x, y ::
              x in multiset(Others(tags)) - multiset(r[|Pinned(tags)|..]) && y in r[|Pinned(tags)|..]
              ==> Key(parse, x) <= Key(parse, y)
  {
    var s :| SortedByDate(parse, s) && multiset(s) == multiset(Others(tags)) && r == Pinned(tags) + Cap(s);
    var k := |Cap(s)|;
    assert r[|Pinned(tags)|..] == s[..k];
    MultisetSplit(s, k);
    SortedSplit(parse, s, k);
  }

  lemma MultisetSplit(s: seq<TemplateTag>, k: nat)
    requires k <= |s|
    ensures multiset(s) - multiset(s[..k]) == multiset(s[k..])
  {
    assert s == s[..k] + s[k..];
  }

  /** In a sequence sorted newest first, every tag after a cut is no newer than every
      tag before it. */
  lemma SortedSplit(parse: DateParser, s: seq<TemplateTag>, k: nat)
    requires SortedByDate(parse, s) && k <= |s|
    ensures forall x, y :: x in multiset(s[k..]) && y in s[..k] ==> Key(parse, x) <= Key(parse, y)
  {
    forall x, y | x in multiset(s[k..]) && y in s[..k]
      ensures Key(parse, x) <= Key(parse, y)
    {
      var a :| 0 <= a < |s[k..]| && s[k..][a] == x;
      var b :| 0 <= b < k && s[..k][b] == y;
      assert s[b] == y && s[k + a] == x;
    }
  }

  /** Nothing is invented or duplicated: the result is a sub-multiset of the input, and
      a permutation of it when there are at most four other tags. */
  lemma RankingKeepsTags(parse: DateParser, tags: seq<TemplateTag>, r: seq<TemplateTag>)
    requires RankingOf(parse, tags, r)
    ensures multiset(r) <= multiset(tags)
    ensures |Others(tags)| <= MAX_OTHERS ==> multiset(r) == multiset(tags)
  {
    var s :| SortedByDate(parse, s) && multiset(s) == multiset(Others(tags)) && r == Pinned(tags) + Cap(s);
    PartitionKeepsTags(tags);
    assert |s| == |multiset(s)| == |Others(tags)|;
    if |s| > MAX_OTHERS {
      assert s == s[..MAX_OTHERS] + s[MAX_OTHERS..];
      assert multiset(Cap(s)) <= multiset(s);
    }
  }

  /** No two of these tags share a commit date key unless they are the same tag. */
  ghost predicate DistinctDates(parse: DateParser, m: multiset<TemplateTag>) {
    forall x, y :: x in m && y in m && Key(parse, x) == Key(parse, y) ==> x == y
  }

  /** With distinct dates, there is only one way to sort newest first. */
  lemma {:induction false} SortedByDateUnique(parse: DateParser, s1: seq<TemplateTag>, s2: seq<TemplateTag>)
    requires SortedByDate(parse, s1) && SortedByDate(parse, s2)
    requires multiset(s1) == multiset(s2)
    requires DistinctDates(parse, multiset(s1))
    ensures s1 == s2
    decreases |s1|
  {
    SameLength(s1, s2);
    if s1 != [] {
      HeadsAgree(parse, s1, s2);
      TailsAgree(parse, s1, s2);
      SortedByDateUnique(parse, s1[1..], s2[1..]);
      SameHeadAndTail(s1, s2);
    }
  }

  lemma SameLength(s1: seq<TemplateTag>, s2: seq<TemplateTag>)
    requires multiset(s1) == multiset(s2)
    ensures |s1| == |s2|
  {
    assert |s1| == |multiset(s1)| == |multiset(s2)| == |s2|;
  }

  lemma SameHeadAndTail(s1: seq<TemplateTag>, s2: seq<TemplateTag>)
    requires s1 != [] && s2 != [] && s1[0] == s2[0] && s1[1..] == s2[1..]
    ensures s1 == s2
  {
    assert s1 == [s1[0]] + s1[1..] && s2 == [s2[0]] + s2[1..];
  }

  /** Two sorted permutations of each other with distinct dates start alike. */
  lemma HeadsAgree(parse: DateParser, s1: seq<TemplateTag>, s2: seq<TemplateTag>)
    requires s1 != [] && s2 != []
    requires SortedByDate(parse, s1) && SortedByDate(parse, s2)
    requires multiset(s1) == multiset(s2)
    requires DistinctDates(parse, multiset(s1))
    ensures s1[0] == s2[0]
  {
    NewestFirst(parse, s1, s2[0]);
    NewestFirst(parse, s2, s1[0]);
    assert s1[0] in multiset(s1) && s2[0] in multiset(s1);
  }

  /** Dropping the same first tag from two sorted permutations of each other leaves
      sorted permutations of each other, still with distinct dates. */
  lemma TailsAgree(parse: DateParser, s1: seq<TemplateTag>, s2: seq<TemplateTag>)
    requires s1 != [] && s2 != [] && s1[0] == s2[0]
    requires SortedByDate(parse, s1) && SortedByDate(parse, s2)
    requires multiset(s1) == multiset(s2)
    requires DistinctDates(parse, multiset(s1))
    ensures SortedByDate(parse, s1[1..]) && SortedByDate(parse, s2[1..])
    ensures multiset(s1[1..]) == multiset(s2[1..])
    ensures DistinctDates(parse, multiset(s1[1..]))
  {
    SortedTail(parse, s1);
    SortedTail(parse, s2);
    TailMultiset(s1);
    TailMultiset(s2);
    DistinctDatesWithin(parse, multiset(s1[1..]), multiset(s1));
  }

  lemma TailMultiset(s: seq<TemplateTag>)
    requires s != []
    ensures multiset(s[1..]) == multiset(s) - multiset{s[0]}
    ensures multiset(s[1..]) <= multiset(s)
  {
    assert s == [s[0]] + s[1..];
  }

  lemma DistinctDatesWithin(parse: DateParser, m1: multiset<TemplateTag>, m2: multiset<TemplateTag>)
    requires m1 <= m2 && DistinctDates(parse, m2)
    ensures DistinctDates(parse, m1)
  {
    forall x, y | x in m1 && y in m1 && Key(parse, x) == Key(parse, y)
      ensures x == y
    {
      assert x in m2 && y in m2;
    }
  }

  lemma SortedTail(parse: DateParser, s: seq<TemplateTag>)
    requires s != [] && SortedByDate(parse, s)
    ensures SortedByDate(parse, s[1..])
  {
    forall i, j | 0 <= i < j < |s| - 1
      ensures Key(parse, s[1..][i]) >= Key(parse, s[1..][j])
    {
      assert s[1..][i] == s[i + 1] && s[1..][j] == s[j + 1];
    }
  }

  /** The first tag of a sequence sorted newest first is at least as new as any of its tags. */
  lemma NewestFirst(parse: DateParser, s: seq<TemplateTag>, x: TemplateTag)
    requires SortedByDate(parse, s)
    requires x in multiset(s)
    ensures s != [] && Key(parse, s[0]) >= Key(parse, x)
  {
    var k :| 0 <= k < |s| && s[k] == x;
    if k > 0 {
      assert Key(parse, s[0]) >= Key(parse, s[k]);
    }
  }

  /** With distinct commit dates among the other tags the ranking is deterministic. */
  lemma RankingUnique(parse: DateParser, tags: seq<TemplateTag>, r1: seq<TemplateTag>, r2: seq<TemplateTag>)
    requires DistinctDates(parse, multiset(Others(tags)))
    requires RankingOf(parse, tags, r1) && RankingOf(parse, tags, r2)
    ensures r1 == r2
  {
    var s1 :| SortedByDate(parse, s1) && multiset(s1) == multiset(Others(tags)) && r1 == Pinned(tags) + Cap(s1);
    var s2 :| SortedByDate(parse, s2) && multiset(s2) == multiset(Others(tags)) && r2 == Pinned(tags) + Cap(s2);
    SortedByDateUnique(parse, s1, s2);
  }

  /** A sequence with no "latest" tag has nothing pinned and is all others. */
  lemma {:induction false} NoPinnedTags(tags: seq<TemplateTag>)
    requires forall i :: 0 <= i < |tags| ==> !IsPinned(tags[i])
    ensures Pinned(tags) == [] && Others(tags) == tags
  {
    if tags != [] {
      NoPinnedTags(tags[..|tags| - 1]);
    }
  }

  /** Partitioning a concatenation partitions each part. */
  lemma {:induction false} PartitionAppend(a: seq<TemplateTag>, b: seq<TemplateTag>)
    ensures Pinned(a + b) == Pinned(a) + Pinned(b)
    ensures Others(a + b) == Others(a) + Others(b)
    decreases |b|
  {
    if b == [] {
      assert a + b == a;
    } else {
      var init := b[..|b| - 1];
      PartitionAppend(a, init);
      assert (a + b)[..|a + b| - 1] == a + init;
    }
  }

  /** A "latest" tag followed by tags that are not "latest" partitions into that one
      tag and the rest. */
  lemma PinnedHead(t: TemplateTag, rest: seq<TemplateTag>)
    requires IsPinned(t)
    requires forall i :: 0 <= i < |rest| ==> !IsPinned(rest[i])
    ensures Pinned([t] + rest) == [t] && Others([t] + rest) == rest
  {
    PartitionAppend([t], rest);
    NoPinnedTags(rest);
    PartitionOne(t);
  }

  lemma PartitionOne(t: TemplateTag)
    ensures Pinned([t]) == (if IsPinned(t) then [t] else [])
    ensures Others([t]) == (if IsPinned(t) then [] else [t])
  {
    assert [t][..0] == [];
  }

  /** Strictly decreasing dates are sorted and distinct. */
  lemma StrictlyNewestFirst(parse: DateParser, s: seq<TemplateTag>)
    requires forall i, j :: 0 <= i < j < |s| ==> Key(parse, s[i]) > Key(parse, s[j])
    ensures SortedByDate(parse, s) && DistinctDates(parse, multiset(s))
  {
    forall x, y | x in multiset(s) && y in multiset(s) && Key(parse, x) == Key(parse, y)
      ensures x == y
    {
      var a :| 0 <= a < |s| && s[a] == x;
      var b :| 0 <= b < |s| && s[b] == y;
      assert a == b;
    }
  }

  /** "latest" followed by tags with strictly decreasing commit dates is ranked as
      "latest" followed by the four newest, in their given order: the tag list
      ["latest", "v2", "v1", "v0", "v-1", "v-2"] with decreasing dates becomes
      ["latest", "v2", "v1", "v0", "v-1"]. */
  lemma LatestThenNewestFour(parse: DateParser, tags: seq<TemplateTag>, r: seq<TemplateTag>)
    requires |tags| >= 1 && IsPinned(tags[0])
    requires forall i :: 1 <= i < |tags| ==> !IsPinned(tags[i])
    requires forall i, j :: 1 <= i < j < |tags| ==> Key(parse, tags[i]) > Key(parse, tags[j])
    requires RankingOf(parse, tags, r)
    ensures r == tags[..if |tags| > 1 + MAX_OTHERS then 1 + MAX_OTHERS else |tags|]
  {
    var rest := tags[1..];
    assert tags == [tags[0]] + rest;
    PinnedHead(tags[0], rest);
    StrictlyNewestAfterHead(parse, tags);
    var expected := tags[..if |tags| > 1 + MAX_OTHERS then 1 + MAX_OTHERS else |tags|];
    assert RankingOf(parse, tags, expected) by {
      HeadThenCap(tags);
      assert expected == Pinned(tags) + Cap(rest);
    }
    RankingUnique(parse, tags, r, expected);
  }

  lemma StrictlyNewestAfterHead(parse: DateParser, tags: seq<TemplateTag>)
    requires |tags| >= 1
    requires forall i, j :: 1 <= i < j < |tags| ==> Key(parse, tags[i]) > Key(parse, tags[j])
    ensures SortedByDate(parse, tags[1..]) && DistinctDates(parse, multiset(tags[1..]))
  {
    var rest := tags[1..];
    forall i, j | 0 <= i < j < |rest|
      ensures Key(parse, rest[i]) > Key(parse, rest[j])
    {
      assert rest[i] == tags[i + 1] && rest[j] == tags[j + 1];
    }
    StrictlyNewestFirst(parse, rest);
  }

  lemma HeadThenCap(tags: seq<TemplateTag>)
    requires |tags| >= 1
    ensures [tags[0]] + Cap(tags[1..]) == tags[..if |tags| > 1 + MAX_OTHERS then 1 + MAX_OTHERS else |tags|]
  {
    if |tags| > 1 + MAX_OTHERS {
      assert Cap(tags[1..]) == tags[1..1 + MAX_OTHERS];
    } else {
      assert [tags[0]] + tags[1..] == tags;
    }
  }
}

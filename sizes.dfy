/**
  Choice of the image size of a photo: the entries of the size list are sorted
  by integer width, largest first, and the first entry of the sorted list is
  taken.
*/
module Sizes {
  import opened Wrappers

  /**
    One entry of the size list. `width` is the value of `int(width)`, None
    where that conversion raises.
  */
  datatype Size = Size(name: string, width: Option<int>, height: int, source: string)

  /** Every entry's width converts to an integer, so the sort key never raises. */
  predicate WidthsParse(sizes: seq<Size>) {
    forall i :: 0 <= i < |sizes| ==> sizes[i].width.Some?
  }

  function W(s: Size): int
    requires s.width.Some?
  {
    s.width.value
  }

  ghost predicate SortedByWidthDesc(s: seq<Size>)
    requires WidthsParse(s)
  {
    forall i, j :: 0 <= i < j < |s| ==> W(s[j]) <= W(s[i])
  }

  /**
    Puts `x`, which came before every entry of `t` in the original list, into
    the descending `t`: after the strictly wider entries and before the rest,
    so that entries of equal width keep their original order.
  */
  function InsertByWidth(x: Size, t: seq<Size>): (r: seq<Size>)
    requires x.width.Some? && WidthsParse(t)
    ensures |r| == |t| + 1 && WidthsParse(r)
    ensures multiset(r) == multiset(t) + multiset{x}
    decreases |t|
  {
    if t == [] || W(t[0]) <= W(x) then
      [x] + t
    else
      assert t == [t[0]] + t[1..];
      [t[0]] + InsertByWidth(x, t[1..])
  }

  /** Inserting never produces a width above a bound that `x` and all of `t` respect. */
  lemma {:induction false} InsertBounded(x: Size, t: seq<Size>, bound: int)
    requires x.width.Some? && WidthsParse(t) && W(x) <= bound
    requires forall i :: 0 <= i < |t| ==> W(t[i]) <= bound
    ensures forall i :: 0 <= i < |t| + 1 ==> W(InsertByWidth(x, t)[i]) <= bound
    decreases |t|
  {
    if t != [] && W(x) < W(t[0]) {
      InsertBounded(x, t[1..], bound);
      var r := InsertByWidth(x, t);
      assert r == [t[0]] + InsertByWidth(x, t[1..]);
    }
  }

  /** Inserting into a width-descending list keeps it width-descending. */
  lemma {:induction false} InsertKeepsSorted(x: Size, t: seq<Size>)
    requires x.width.Some? && WidthsParse(t) && SortedByWidthDesc(t)
    ensures SortedByWidthDesc(InsertByWidth(x, t))
    decreases |t|
  {
    if t != [] && W(x) < W(t[0]) {
      var rest := InsertByWidth(x, t[1..]);
      InsertKeepsSorted(x, t[1..]);
      InsertBounded(x, t[1..], W(t[0]));
      assert InsertByWidth(x, t) == [t[0]] + rest;
    }
  }

  /** `sorted(sizes, key=lambda x: int(x["width"]), reverse=True)`: a stable sort, widest first. */
  function SortByWidthDesc(s: seq<Size>): (r: seq<Size>)
    requires WidthsParse(s)
    ensures WidthsParse(r)
    ensures multiset(r) == multiset(s)
    ensures SortedByWidthDesc(r)
    decreases |s|
  {
    if s == [] then []
    else
      assert s == [s[0]] + s[1..];
      InsertKeepsSorted(s[0], SortByWidthDesc(s[1..]));
      InsertByWidth(s[0], SortByWidthDesc(s[1..]))
  }

  /**
    The size chosen for a fetched photo: the head of the sorted list, or None
    where the expression raises (an empty list, or a width that does not
    convert), which the caller treats as a failed candidate.
  */
  function LargestSize(sizes: seq<Size>): (r: Option<Size>)
    ensures r.Some? <==> |sizes| > 0 && WidthsParse(sizes)
    ensures r.Some? ==> r.value in sizes
  {
    if |sizes| == 0 || !WidthsParse(sizes) then None
    else
      var sorted := SortByWidthDesc(sizes);
      assert sorted[0] in multiset(sorted);
      Some(sorted[0])
  }

  /** The head after inserting `x`: `x` itself unless the old head is strictly wider. */
  lemma InsertHead(x: Size, t: seq<Size>)
    requires x.width.Some? && WidthsParse(t) && t != []
    ensures InsertByWidth(x, t)[0] == if W(t[0]) <= W(x) then x else t[0]
  {
  }

  /** `h` is the widest entry of `s`, and no earlier entry is as wide. */
  ghost predicate FirstWidest(s: seq<Size>, h: Size)
    requires WidthsParse(s) && h.width.Some?
  {
    && (forall j :: 0 <= j < |s| ==> W(s[j]) <= W(h))
    && exists k :: 0 <= k < |s| && s[k] == h && forall j :: 0 <= j < k ==> W(s[j]) < W(h)
  }

  /** One step of the induction: putting `x` in front of `rest`. */
  lemma FirstWidestCons(x: Size, rest: seq<Size>, m: Size)
    requires x.width.Some? && WidthsParse(rest) && m.width.Some? && FirstWidest(rest, m)
    ensures WidthsParse([x] + rest)
    ensures FirstWidest([x] + rest, if W(m) <= W(x) then x else m)
  {
    var s := [x] + rest;
    var h := if W(m) <= W(x) then x else m;
    var k' :| 0 <= k' < |rest| && rest[k'] == m && forall j :: 0 <= j < k' ==> W(rest[j]) < W(m);
    forall j | 1 <= j < |s|
      ensures W(s[j]) <= W(h)
    {
      assert s[j] == rest[j - 1];
    }
    if W(m) > W(x) {
      forall j | 1 <= j < k' + 1
        ensures W(s[j]) < W(h)
      {
        assert s[j] == rest[j - 1];
      }
      assert s[k' + 1] == h;
    } else {
      assert s[0] == h;
    }
  }

  /**
    The head of the stable descending sort is the widest entry, and the
    earliest one among entries of that width.
  */
  lemma {:induction false} SortHeadIsFirstWidest(s: seq<Size>)
    requires |s| > 0 && WidthsParse(s)
    ensures SortByWidthDesc(s)[0].width.Some? && FirstWidest(s, SortByWidthDesc(s)[0])
    decreases |s|
  {
    var x, rest := s[0], s[1..];
    assert s == [x] + rest;
    if rest == [] {
      assert SortByWidthDesc(s)[0] == x;
      assert s[0] == x;
    } else {
      var t := SortByWidthDesc(rest);
      assert SortByWidthDesc(s) == InsertByWidth(x, t);
      InsertHead(x, t);
      SortHeadIsFirstWidest(rest);
      FirstWidestCons(x, rest, t[0]);
    }
  }

  /**
    The size `pickRandomPhoto` chooses is at least as wide as every entry of
    the list, and no earlier entry is as wide.
  */
  lemma LargestSizeIsFirstWidest(sizes: seq<Size>)
    requires |sizes| > 0 && WidthsParse(sizes)
    ensures LargestSize(sizes).Some?
    ensures LargestSize(sizes).value.width.Some?
    ensures FirstWidest(sizes, LargestSize(sizes).value)
  {
    SortHeadIsFirstWidest(sizes);
  }
}

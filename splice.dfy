/**
  The splicer of esi/esi.go (`processEsiTags`, last loop): resolved regions
  are written back into the buffer bottom-up, and this is shown equal to a
  left-to-right builder that copies the gaps and substitutes the regions.
 */
module Splicing {
  import opened Tags

  /** One resolved directive: the range `[start, end)` it occupied and what
      replaces it. */
  datatype Response = Response(start: nat, end: nat, res: seq<byte>, tag: Tag)

  /** Every range is well formed: a start never after its end. */
  predicate WellFormed(rs: seq<Response>)
  {
    forall i :: 0 <= i < |rs| ==> rs[i].start <= rs[i].end
  }

  /** No two ranges overlap, each one lying after every range listed later:
      the shape of a list sorted by descending start whose ranges are disjoint. */
  predicate Separated(rs: seq<Response>)
  {
    forall i, j :: 0 <= i < j < |rs| ==> rs[j].end <= rs[i].start
  }

  /** Ranges in ascending order, disjoint, all inside `[lo, hi]`. */
  predicate AscendingWithin(rs: seq<Response>, lo: nat, hi: nat)
    decreases |rs|
  {
    lo <= hi &&
    (rs == [] || (lo <= rs[0].start <= rs[0].end <= hi && AscendingWithin(rs[1..], rs[0].end, hi)))
  }

  /** Ranges in descending order, disjoint, all inside `[0, hi]`. */
  predicate DescendingWithin(rs: seq<Response>, hi: nat)
    decreases |rs|
  {
    rs == [] || (rs[0].start <= rs[0].end <= hi && DescendingWithin(rs[1..], rs[0].start))
  }

  function Reverse<T>(s: seq<T>): (r: seq<T>)
    ensures |r| == |s|
    ensures forall i :: 0 <= i < |s| ==> r[i] == s[|s| - 1 - i]
  {
    if s == [] then [] else Reverse(s[1..]) + [s[0]]
  }

  /** One step of the rewrite, `b = append(b[:Start], append(Res, b[End:]...)...)`;
      `None` when `End` lies past the current buffer, where the slice
      expression panics. */
  function Replace(buf: seq<byte>, r: Response): (o: Option<seq<byte>>)
    requires r.start <= r.end
    ensures o.Some? <==> r.end <= |buf|
    ensures o.Some? ==> |o.value| == |buf| + |r.res| - (r.end - r.start)
    ensures o.Some? ==> o.value[..r.start] == buf[..r.start] && o.value[r.start + |r.res|..] == buf[r.end..]
    ensures o.Some? ==> o.value[r.start..r.start + |r.res|] == r.res
  {
    if r.end <= |buf| then Some(buf[..r.start] + r.res + buf[r.end..]) else None
  }

  /** The rewrite applied to each response in turn, in the given order. */
  function SpliceAll(b: seq<byte>, rs: seq<Response>): Option<seq<byte>>
    requires WellFormed(rs)
    decreases |rs|
  {
    if rs == [] then Some(b)
    else
      match Replace(b, rs[0])
      case None => None
      case Some(b') => SpliceAll(b', rs[1..])
  }

  /** The reference: walk `b[pos..hi]` once, copying each gap verbatim and
      substituting each region, in ascending order. */
  function Build(b: seq<byte>, rs: seq<Response>, pos: nat, hi: nat): seq<byte>
    requires AscendingWithin(rs, pos, hi) && hi <= |b|
    decreases |rs|
  {
    if rs == [] then b[pos..hi]
    else b[pos..rs[0].start] + rs[0].res + Build(b, rs[1..], rs[0].end, hi)
  }

  /** How much the first `n` regions change the length of the buffer. */
  function Delta(rs: seq<Response>, n: nat): int
    requires n <= |rs|
  {
    if n == 0 then 0 else |rs[0].res| - (rs[0].end - rs[0].start) + Delta(rs[1..], n - 1)
  }

  lemma {:induction false} DescendingWellFormed(rs: seq<Response>, hi: nat)
    requires DescendingWithin(rs, hi)
    ensures WellFormed(rs)
    decreases |rs|
  {
    if rs != [] {
      DescendingWellFormed(rs[1..], rs[0].start);
      assert forall i :: 1 <= i < |rs| ==> rs[i] == rs[1..][i - 1];
    }
  }

  /** Separated, well-formed ranges that all end by `hi` satisfy the
      splicer's requirement. */
  lemma {:induction false} SeparatedDescending(rs: seq<Response>, hi: nat)
    requires Separated(rs)
    requires forall i :: 0 <= i < |rs| ==> rs[i].start <= rs[i].end <= hi
    ensures DescendingWithin(rs, hi)
    decreases |rs|
  {
    if rs != [] {
      var tail := rs[1..];
      forall i | 0 <= i < |tail| ensures tail[i].start <= tail[i].end <= rs[0].start {
        assert tail[i] == rs[i + 1];
      }
      assert Separated(tail) by {
        forall i, j | 0 <= i < j < |tail| ensures tail[j].end <= tail[i].start {
          assert tail[i] == rs[i + 1] && tail[j] == rs[j + 1];
        }
      }
      SeparatedDescending(tail, rs[0].start);
    }
  }

  lemma {:induction false} AppendAscending(rs: seq<Response>, r: Response, pos: nat, hi: nat)
    requires AscendingWithin(rs, pos, r.start) && r.start <= r.end <= hi
    ensures AscendingWithin(rs + [r], pos, hi)
    decreases |rs|
  {
    if rs == [] {
      assert rs + [r] == [r];
      assert [r][1..] == [];
    } else {
      assert (rs + [r])[1..] == rs[1..] + [r];
      AppendAscending(rs[1..], r, rs[0].end, hi);
    }
  }

  lemma {:induction false} ReverseAscending(rs: seq<Response>, hi: nat)
    requires DescendingWithin(rs, hi)
    ensures AscendingWithin(Reverse(rs), 0, hi)
    decreases |rs|
  {
    if rs != [] {
      ReverseAscending(rs[1..], rs[0].start);
      AppendAscending(Reverse(rs[1..]), rs[0], 0, hi);
    }
  }

  /** Building with one more region at the end equals building up to its
      start and appending that region and the bytes after it. */
  lemma {:induction false} BuildSnoc(b: seq<byte>, rs: seq<Response>, r: Response, pos: nat, hi: nat)
    requires AscendingWithin(rs, pos, r.start) && r.start <= r.end <= hi <= |b|
    ensures AscendingWithin(rs + [r], pos, hi)
    ensures Build(b, rs + [r], pos, hi) == Build(b, rs, pos, r.start) + r.res + b[r.end..hi]
    decreases |rs|
  {
    AppendAscending(rs, r, pos, hi);
    if rs == [] {
      assert rs + [r] == [r];
      assert [r][1..] == [];
    } else {
      assert (rs + [r])[1..] == rs[1..] + [r];
      BuildSnoc(b, rs[1..], r, rs[0].end, hi);
    }
  }

  /** The builder reads only the bytes below its bound. */
  lemma {:induction false} BuildReadsBelow(b: seq<byte>, b': seq<byte>, rs: seq<Response>, pos: nat, hi: nat)
    requires AscendingWithin(rs, pos, hi) && hi <= |b| && hi <= |b'|
    requires b[..hi] == b'[..hi]
    ensures Build(b, rs, pos, hi) == Build(b', rs, pos, hi)
    decreases |rs|
  {
    if rs == [] {
      assert b[pos..hi] == b[..hi][pos..];
      assert b'[pos..hi] == b'[..hi][pos..];
    } else {
      assert b[pos..rs[0].start] == b[..hi][pos..rs[0].start];
      assert b'[pos..rs[0].start] == b'[..hi][pos..rs[0].start];
      BuildReadsBelow(b, b', rs[1..], rs[0].end, hi);
    }
  }

  lemma SplitAt(x: seq<byte>, y: seq<byte>)
    ensures (x + y)[..|x|] == x && (x + y)[|x|..] == y
  {
  }

  lemma RegroupTail(front: seq<byte>, mid: seq<byte>, b: seq<byte>, e: nat, hi: nat)
    requires e <= hi <= |b|
    ensures front + (mid + b[e..]) == (front + mid + b[e..hi]) + b[hi..]
  {
    assert b[e..] == b[e..hi] + b[hi..];
  }

  /** The central lemma, generalised over a bound `hi`: applying disjoint
      descending regions that all lie below `hi` rewrites only `b[..hi]`,
      and rewrites it as the ascending builder does. */
  lemma {:induction false} SpliceDescendingBelow(b: seq<byte>, rs: seq<Response>, hi: nat)
    requires DescendingWithin(rs, hi) && hi <= |b|
    ensures WellFormed(rs) && AscendingWithin(Reverse(rs), 0, hi)
    ensures SpliceAll(b, rs) == Some(Build(b, Reverse(rs), 0, hi) + b[hi..])
    decreases |rs|
  {
    DescendingWellFormed(rs, hi);
    ReverseAscending(rs, hi);
    if rs == [] {
      assert b[0..hi] + b[hi..] == b;
    } else {
      var r, rest := rs[0], rs[1..];
      var b' := b[..r.start] + (r.res + b[r.end..]);
      assert SpliceAll(b, rs) == SpliceAll(b', rest) by {
        assert b[..r.start] + r.res + b[r.end..] == b';
        assert Replace(b, r) == Some(b');
      }
      SpliceDescendingBelow(b', rest, r.start);
      var inner := Build(b, Reverse(rest), 0, r.start);
      assert SpliceAll(b', rest) == Some(inner + (r.res + b[r.end..])) by {
        SplitAt(b[..r.start], r.res + b[r.end..]);
        BuildReadsBelow(b', b, Reverse(rest), 0, r.start);
      }
      assert Build(b, Reverse(rs), 0, hi) == inner + r.res + b[r.end..hi] by {
        assert Reverse(rs) == Reverse(rest) + [r];
        BuildSnoc(b, Reverse(rest), r, 0, hi);
      }
      RegroupTail(inner, r.res, b, r.end, hi);
    }
  }

  /** The bottom-up in-place splice of disjoint, in-bounds regions, taken in
      descending order, equals the ascending "copy the gaps, substitute the
      regions" builder. */
  lemma DescendingSpliceIsBuild(b: seq<byte>, rs: seq<Response>)
    requires DescendingWithin(rs, |b|)
    ensures WellFormed(rs) && AscendingWithin(Reverse(rs), 0, |b|)
    ensures SpliceAll(b, rs) == Some(Build(b, Reverse(rs), 0, |b|))
  {
    SpliceDescendingBelow(b, rs, |b|);
    assert Build(b, Reverse(rs), 0, |b|) + b[|b|..] == Build(b, Reverse(rs), 0, |b|);
  }

  /** The expected result of splicing descending regions: the ascending
      builder run over the whole buffer. */
  function Rebuilt(b: seq<byte>, rs: seq<Response>): seq<byte>
    requires DescendingWithin(rs, |b|)
  {
    ReverseAscending(rs, |b|);
    Build(b, Reverse(rs), 0, |b|)
  }

  /** The last loop of `processEsiTags`: each response, in the given order,
      replaces its range of the current buffer. `None` stands for the panic
      of a range that ends past the current buffer. */
  method SpliceInPlace(b: seq<byte>, sorted: seq<Response>) returns (out: Option<seq<byte>>)
    requires WellFormed(sorted)
    ensures out == SpliceAll(b, sorted)
    ensures DescendingWithin(sorted, |b|) ==> out == Some(Rebuilt(b, sorted))
  {
    if DescendingWithin(sorted, |b|) {
      DescendingSpliceIsBuild(b, sorted);
    }
    var buf := b;
    var i := 0;
    while i < |sorted|
      invariant i <= |sorted|
      invariant SpliceAll(buf, sorted[i..]) == SpliceAll(b, sorted)
    {
      var r := sorted[i];
      assert sorted[i..][0] == r && sorted[i..][1..] == sorted[i + 1..];
      if r.end > |buf| {
        return None;
      }
      buf := buf[..r.start] + r.res + buf[r.end..];
      i := i + 1;
    }
    assert sorted[i..] == [];
    return Some(buf);
  }

  /** The output is as long as the input plus each region's change in length. */
  lemma {:induction false} BuildLength(b: seq<byte>, rs: seq<Response>, pos: nat, hi: nat)
    requires AscendingWithin(rs, pos, hi) && hi <= |b|
    ensures |Build(b, rs, pos, hi)| == hi - pos + Delta(rs, |rs|)
    decreases |rs|
  {
    if rs != [] {
      BuildLength(b, rs[1..], rs[0].end, hi);
    }
  }

  /** The length formula for the whole splice: the input's length plus, for
      each region, the length of its replacement minus the length it covered. */
  lemma RebuiltLength(b: seq<byte>, rs: seq<Response>)
    requires DescendingWithin(rs, |b|)
    ensures |Rebuilt(b, rs)| == |b| + Delta(Reverse(rs), |rs|)
  {
    ReverseAscending(rs, |b|);
    BuildLength(b, Reverse(rs), 0, |b|);
  }

  lemma SliceBefore(head: seq<byte>, tail: seq<byte>, x: nat, y: nat)
    requires x <= y <= |head|
    ensures (head + tail)[x..y] == head[x..y]
  {
  }

  lemma SliceAfter(head: seq<byte>, tail: seq<byte>, x: nat, y: nat)
    requires x <= y <= |tail|
    ensures (head + tail)[|head| + x..|head| + y] == tail[x..y]
  {
  }

  /** Each region of an ascending list lies inside the bounds, after the
      region before it. */
  lemma {:induction false} AscendingAt(rs: seq<Response>, lo: nat, hi: nat, i: nat)
    requires AscendingWithin(rs, lo, hi) && i < |rs|
    ensures lo <= rs[i].start <= rs[i].end <= hi
    ensures 0 < i ==> rs[i - 1].end <= rs[i].start
    decreases |rs|
  {
    if 0 < i {
      AscendingAt(rs[1..], rs[0].end, hi, i - 1);
      assert rs[1..][i - 1] == rs[i];
      if 1 < i {
        assert rs[1..][i - 2] == rs[i - 1];
      }
    } else if |rs| == 1 {
    } else {
      AscendingAt(rs[1..], rs[0].end, hi, 0);
    }
  }

  /** Where the gap before region `i` begins: after region `i - 1`. */
  function GapStart(rs: seq<Response>, pos: nat, hi: nat, i: nat): (g: nat)
    requires AscendingWithin(rs, pos, hi) && i <= |rs|
    ensures pos <= g <= hi
  {
    if i == 0 then pos else AscendingAt(rs, pos, hi, i - 1); rs[i - 1].end
  }

  /** Where the gap before region `i` ends: at region `i`, or at `hi`. */
  function GapEnd(rs: seq<Response>, pos: nat, hi: nat, i: nat): (g: nat)
    requires AscendingWithin(rs, pos, hi) && i <= |rs|
    ensures GapStart(rs, pos, hi, i) <= g <= hi
  {
    if i == |rs| then hi else AscendingAt(rs, pos, hi, i); rs[i].start
  }

  /** The bytes before the first region are copied to the head of the output. */
  lemma BuildKeepsFirstGap(b: seq<byte>, rs: seq<Response>, pos: nat, hi: nat)
    requires AscendingWithin(rs, pos, hi) && hi <= |b|
    ensures GapEnd(rs, pos, hi, 0) - pos <= |Build(b, rs, pos, hi)|
    ensures Build(b, rs, pos, hi)[..GapEnd(rs, pos, hi, 0) - pos] == b[pos..GapEnd(rs, pos, hi, 0)]
  {
    if rs != [] {
      var head := b[pos..rs[0].start];
      var tail := rs[0].res + Build(b, rs[1..], rs[0].end, hi);
      assert Build(b, rs, pos, hi) == head + tail;
      SliceBefore(head, tail, 0, |head|);
    }
  }

  /** Content found at offset `x` of the built tail is found `|head|` further
      on once the head is put in front of it. */
  lemma ShiftedSlice(head: seq<byte>, tail: seq<byte>, x: int, y: int, seg: seq<byte>)
    requires 0 <= x <= y <= |tail| && tail[x..y] == seg
    ensures (head + tail)[|head| + x..|head| + y] == seg
  {
    SliceAfter(head, tail, x, y);
  }

  /** The bytes of `b` between regions `i - 1` and `i` reach the output
      unchanged and in order, moved by exactly the change in length of the
      regions before them. */
  lemma {:induction false} BuildKeepsGap(b: seq<byte>, rs: seq<Response>, pos: nat, hi: nat, i: nat)
    requires AscendingWithin(rs, pos, hi) && hi <= |b| && i <= |rs|
    ensures 0 <= GapStart(rs, pos, hi, i) - pos + Delta(rs, i)
    ensures GapEnd(rs, pos, hi, i) - pos + Delta(rs, i) <= |Build(b, rs, pos, hi)|
    ensures Build(b, rs, pos, hi)[GapStart(rs, pos, hi, i) - pos + Delta(rs, i)..GapEnd(rs, pos, hi, i) - pos + Delta(rs, i)]
         == b[GapStart(rs, pos, hi, i)..GapEnd(rs, pos, hi, i)]
    decreases |rs|
  {
    if i == 0 {
      BuildKeepsFirstGap(b, rs, pos, hi);
    } else {
      var r := rs[0];
      var lo, up := GapStart(rs, pos, hi, i), GapEnd(rs, pos, hi, i);
      var head := b[pos..r.start] + r.res;
      var tail := Build(b, rs[1..], r.end, hi);
      var d := Delta(rs[1..], i - 1);
      assert 0 <= lo - r.end + d <= up - r.end + d <= |tail| && tail[lo - r.end + d..up - r.end + d] == b[lo..up] by {
        BuildKeepsGap(b, rs[1..], r.end, hi, i - 1);
        assert GapStart(rs[1..], r.end, hi, i - 1) == lo && GapEnd(rs[1..], r.end, hi, i - 1) == up;
      }
      var x, y := lo - r.end + d, up - r.end + d;
      assert Build(b, rs, pos, hi) == head + tail && Delta(rs, i) == |head| - (r.end - pos) + d;
      assert lo - pos + Delta(rs, i) == |head| + x && up - pos + Delta(rs, i) == |head| + y;
      ShiftedSlice(head, tail, x, y, b[lo..up]);
    }
  }

  /** Region `i`'s replacement appears in the output at its own original
      start, moved by exactly the change in length of the regions before it. */
  lemma {:induction false} BuildPlacesReplacement(b: seq<byte>, rs: seq<Response>, pos: nat, hi: nat, i: nat)
    requires AscendingWithin(rs, pos, hi) && hi <= |b|
    requires i < |rs|
    ensures 0 <= rs[i].start - pos + Delta(rs, i)
    ensures rs[i].start - pos + Delta(rs, i) + |rs[i].res| <= |Build(b, rs, pos, hi)|
    ensures Build(b, rs, pos, hi)[rs[i].start - pos + Delta(rs, i)..rs[i].start - pos + Delta(rs, i) + |rs[i].res|]
         == rs[i].res
    decreases |rs|
  {
    BuildLength(b, rs, pos, hi);
    var r := rs[0];
    BuildLength(b, rs[1..], r.end, hi);
    var head := b[pos..r.start] + r.res;
    var tail := Build(b, rs[1..], r.end, hi);
    if i == 0 {
      SliceBefore(head, tail, r.start - pos, r.start - pos + |r.res|);
    } else {
      BuildPlacesReplacement(b, rs[1..], r.end, hi, i - 1);
      var x := rs[i].start - r.end + Delta(rs[1..], i - 1);
      assert rs[1..][i - 1] == rs[i];
      SliceAfter(head, tail, x, x + |rs[i].res|);
    }
  }
}

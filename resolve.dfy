/**
  The resolution half of `processEsiTags` in esi/esi.go: one response per
  recorded match, collected in completion order, then sorted by descending
  start. Because the starts are distinct, the sorted list does not depend on
  the completion order: it is always the canonical plan defined here.
 */
module Resolution {
  import opened Tags
  import opened Splicing

  /** The response one worker produces for the match at `s`: the tag
      processes the rest of the buffer from `s`, and its range ends where
      the tag says its own text ends. */
  function Resolved(process: Processor, b: seq<byte>, s: nat, t: Tag): (r: Response)
    requires s <= |b|
    ensures r.start == s && r.tag == t
    ensures r.start <= r.end <= |b|
  {
    var reply := process(t, b[s..]);
    Response(s, s + reply.length, reply.res, t)
  }

  /** Every key of the match map lies inside the buffer, as `b[s:]` requires. */
  predicate InBuffer(includes: map<nat, Tag>, b: seq<byte>)
  {
    forall k :: k in includes ==> k <= |b|
  }

  /** `x` is the response of one of the recorded matches. */
  predicate Produced(process: Processor, b: seq<byte>, includes: map<nat, Tag>, x: Response)
    requires InBuffer(includes, b)
  {
    x.start in includes && x == Resolved(process, b, x.start, includes[x.start])
  }

  predicate NonIncreasing(rs: seq<Response>)
  {
    forall i, j :: 0 <= i < j < |rs| ==> rs[i].start >= rs[j].start
  }

  predicate StrictlyDescending(rs: seq<Response>)
  {
    forall i, j :: 0 <= i < j < |rs| ==> rs[i].start > rs[j].start
  }

  predicate DistinctStarts(rs: seq<Response>)
  {
    forall i, j :: 0 <= i < j < |rs| ==> rs[i].start != rs[j].start
  }

  /** The keys of `ks` below `n`, as a set built one key at a time. */
  function KeySet(ks: set<nat>, n: nat): (r: set<nat>)
    ensures forall k :: k in r <==> k in ks && k < n
  {
    if n == 0 then {}
    else if n - 1 in ks then KeySet(ks, n - 1) + {n - 1}
    else KeySet(ks, n - 1)
  }

  /** The responses of the recorded matches that start below `n`, by
      descending start. */
  function PlanBelow(process: Processor, b: seq<byte>, includes: map<nat, Tag>, n: nat): seq<Response>
    requires InBuffer(includes, b)
  {
    if n == 0 then []
    else if n - 1 in includes then [Resolved(process, b, n - 1, includes[n - 1])] + PlanBelow(process, b, includes, n - 1)
    else PlanBelow(process, b, includes, n - 1)
  }

  /** `PlanBelow` holds exactly one response per match below `n`, strictly
      descending by start. */
  lemma {:induction false} PlanBelowSpec(process: Processor, b: seq<byte>, includes: map<nat, Tag>, n: nat)
    requires InBuffer(includes, b)
    ensures forall x :: x in PlanBelow(process, b, includes, n) <==> Produced(process, b, includes, x) && x.start < n
    ensures StrictlyDescending(PlanBelow(process, b, includes, n))
    ensures |PlanBelow(process, b, includes, n)| == |KeySet(includes.Keys, n)|
  {
    if n > 0 {
      PlanBelowSpec(process, b, includes, n - 1);
      var rest := PlanBelow(process, b, includes, n - 1);
      if n - 1 in includes {
        var h := Resolved(process, b, n - 1, includes[n - 1]);
        assert StartsBelow(rest, h.start);
        ConsStrictlyDescending(h, rest);
        assert n - 1 !in KeySet(includes.Keys, n - 1);
      }
    }
  }

  /** The canonical plan: one response per recorded match, by descending start. */
  function Plan(process: Processor, b: seq<byte>, includes: map<nat, Tag>): (r: seq<Response>)
    requires InBuffer(includes, b)
    ensures |r| == |includes|
    ensures StrictlyDescending(r) && WellFormed(r)
    ensures forall x :: x in r <==> Produced(process, b, includes, x)
    ensures forall i :: 0 <= i < |r| ==> r[i].end <= |b|
    ensures Separated(r) ==> DescendingWithin(r, |b|)
  {
    var r := PlanBelow(process, b, includes, |b| + 1);
    PlanBelowSpec(process, b, includes, |b| + 1);
    assert |r| == |includes| by {
      assert KeySet(includes.Keys, |b| + 1) == includes.Keys;
    }
    assert forall i :: 0 <= i < |r| ==> r[i].start <= r[i].end <= |b| by {
      forall i | 0 <= i < |r| ensures r[i].start <= r[i].end <= |b| {
        assert r[i] in r;
      }
    }
    assert Separated(r) ==> DescendingWithin(r, |b|) by {
      if Separated(r) {
        SeparatedDescending(r, |b|);
      }
    }
    r
  }

  /** The fan-out and collection of `processEsiTags`: every recorded match is
      resolved once, and the responses arrive in whatever order the workers
      finish; the choice of the next key stands for that order. */
  method Resolve(process: Processor, b: seq<byte>, includes: map<nat, Tag>) returns (responses: seq<Response>)
    requires InBuffer(includes, b)
    ensures |responses| == |includes|
    ensures DistinctStarts(responses)
    ensures forall x :: x in responses <==> Produced(process, b, includes, x)
  {
    responses := [];
    var pending := includes.Keys;
    while pending != {}
      invariant pending <= includes.Keys
      invariant |responses| + |pending| == |includes|
      invariant DistinctStarts(responses)
      invariant forall x :: x in responses <==> x.start !in pending && Produced(process, b, includes, x)
      decreases |pending|
    {
      var s :| s in pending;
      responses := responses + [Resolved(process, b, s, includes[s])];
      pending := pending - {s};
    }
  }

  /** Every response in `rs` starts at or below `m`. */
  predicate StartsAtMost(rs: seq<Response>, m: nat)
  {
    forall x :: x in rs ==> x.start <= m
  }

  /** Every response in `rs` starts strictly below `m`. */
  predicate StartsBelow(rs: seq<Response>, m: nat)
  {
    forall x :: x in rs ==> x.start < m
  }

  lemma ConsNonIncreasing(h: Response, t: seq<Response>)
    requires NonIncreasing(t) && StartsAtMost(t, h.start)
    ensures NonIncreasing([h] + t)
  {
    forall i, j | 0 <= i < j < |t| + 1 ensures ([h] + t)[i].start >= ([h] + t)[j].start {
      assert ([h] + t)[j] == t[j - 1];
      if i > 0 {
        assert ([h] + t)[i] == t[i - 1];
      }
    }
  }

  lemma ConsStrictlyDescending(h: Response, t: seq<Response>)
    requires StrictlyDescending(t) && StartsBelow(t, h.start)
    ensures StrictlyDescending([h] + t)
  {
    forall i, j | 0 <= i < j < |t| + 1 ensures ([h] + t)[i].start > ([h] + t)[j].start {
      assert ([h] + t)[j] == t[j - 1];
      if i > 0 {
        assert ([h] + t)[i] == t[i - 1];
      }
    }
  }

  /** The head of a non-increasing list bounds the starts of its tail. */
  lemma HeadBoundsTail(s: seq<Response>)
    requires s != [] && NonIncreasing(s)
    ensures StartsAtMost(s[1..], s[0].start)
    ensures StrictlyDescending(s) ==> StartsBelow(s[1..], s[0].start) && NonIncreasing(s[1..])
    ensures StrictlyDescending(s) ==> StrictlyDescending(s[1..])
    ensures NonIncreasing(s[1..])
  {
    forall x | x in s[1..] ensures x.start <= s[0].start && (StrictlyDescending(s) ==> x.start < s[0].start) {
      var j :| 0 <= j < |s[1..]| && s[1..][j] == x;
      assert s[j + 1] == x;
    }
  }

  /** Whatever lies in a list with the same multiset lies in the original. */
  lemma MemberOfPermutation(o: seq<Response>, s: seq<Response>, r: Response, x: Response)
    requires multiset(o) == multiset(s) + multiset{r}
    requires x in o
    ensures x == r || x in s
  {
    assert x in multiset(o);
  }

  /** Insertion of one response into a list sorted by descending start. */
  function InsertByStart(r: Response, s: seq<Response>): seq<Response>
  {
    if s == [] || s[0].start <= r.start then [r] + s
    else [s[0]] + InsertByStart(r, s[1..])
  }

  /** Insertion adds exactly the one response. */
  lemma {:induction false} InsertByStartPermutes(r: Response, s: seq<Response>)
    ensures multiset(InsertByStart(r, s)) == multiset(s) + multiset{r}
  {
    if s != [] && s[0].start > r.start {
      InsertByStartPermutes(r, s[1..]);
      assert s == [s[0]] + s[1..];
    }
  }

  /** Insertion keeps the list sorted, strictly so when the new start is not
      already present. */
  lemma {:induction false} InsertByStartOrders(r: Response, s: seq<Response>)
    requires NonIncreasing(s)
    ensures NonIncreasing(InsertByStart(r, s))
    ensures StrictlyDescending(s) && (forall x :: x in s ==> x.start != r.start) ==> StrictlyDescending(InsertByStart(r, s))
  {
    if s == [] || s[0].start <= r.start {
      assert StartsAtMost(s, r.start) by {
        if s != [] {
          HeadBoundsTail(s);
          assert forall x :: x in s ==> x == s[0] || x in s[1..];
        }
      }
      ConsNonIncreasing(r, s);
      if StrictlyDescending(s) && (forall x :: x in s ==> x.start != r.start) {
        assert StartsBelow(s, r.start);
        ConsStrictlyDescending(r, s);
      }
    } else {
      HeadBoundsTail(s);
      var o' := InsertByStart(r, s[1..]);
      InsertByStartOrders(r, s[1..]);
      assert StartsAtMost(o', s[0].start) && (StrictlyDescending(s) ==> StartsBelow(o', s[0].start)) by {
        InsertByStartPermutes(r, s[1..]);
        forall x | x in o' ensures x.start <= s[0].start && (StrictlyDescending(s) ==> x.start < s[0].start) {
          MemberOfPermutation(o', s[1..], r, x);
        }
      }
      ConsNonIncreasing(s[0], o');
      if StrictlyDescending(s) && (forall x :: x in s ==> x.start != r.start) {
        assert forall x :: x in s[1..] ==> x in s;
        ConsStrictlyDescending(s[0], o');
      }
    }
  }

  /** `slices.SortFunc` with the comparison `b.Start - a.Start`, as an
      insertion sort by descending start. */
  function SortByStartDesc(rs: seq<Response>): seq<Response>
  {
    if rs == [] then [] else InsertByStart(rs[0], SortByStartDesc(rs[1..]))
  }

  /** Distinct starts survive dropping the head, and a permutation of the
      tail holds no response starting where the head does. */
  lemma DistinctTail(rs: seq<Response>, tail: seq<Response>)
    requires rs != [] && DistinctStarts(rs) && multiset(tail) == multiset(rs[1..])
    ensures DistinctStarts(rs[1..])
    ensures forall x :: x in tail ==> x.start != rs[0].start
  {
    forall x | x in tail ensures x.start != rs[0].start {
      assert x in multiset(rs[1..]);
      var j :| 0 <= j < |rs[1..]| && rs[1..][j] == x;
      assert rs[j + 1] == x;
    }
    forall i, j | 0 <= i < j < |rs[1..]| ensures rs[1..][i].start != rs[1..][j].start {
      assert rs[1..][i] == rs[i + 1] && rs[1..][j] == rs[j + 1];
    }
  }

  /** The sort yields a permutation of its input. */
  lemma {:induction false} SortByStartDescPermutes(rs: seq<Response>)
    ensures multiset(SortByStartDesc(rs)) == multiset(rs)
  {
    if rs != [] {
      SortByStartDescPermutes(rs[1..]);
      InsertByStartPermutes(rs[0], SortByStartDesc(rs[1..]));
      assert rs == [rs[0]] + rs[1..];
    }
  }

  /** The sort orders by descending start, strictly so when the starts are
      distinct. */
  lemma {:induction false} SortByStartDescOrders(rs: seq<Response>)
    ensures NonIncreasing(SortByStartDesc(rs))
    ensures DistinctStarts(rs) ==> StrictlyDescending(SortByStartDesc(rs))
  {
    if rs != [] {
      var tail := SortByStartDesc(rs[1..]);
      SortByStartDescOrders(rs[1..]);
      InsertByStartOrders(rs[0], tail);
      if DistinctStarts(rs) {
        SortByStartDescPermutes(rs[1..]);
        DistinctTail(rs, tail);
      }
    }
  }

  /** A response other than the head of a list lies in its tail. */
  lemma InTail(s: seq<Response>, x: Response)
    requires x in s && x != s[0]
    ensures x in s[1..]
  {
    var j :| 0 <= j < |s| && s[j] == x;
    assert s[1..][j - 1] == x;
  }

  /** Two lists strictly descending by start that hold the same responses are
      the same list. */
  lemma {:induction false} StrictlyDescendingUnique(xs: seq<Response>, ys: seq<Response>)
    requires StrictlyDescending(xs) && StrictlyDescending(ys)
    requires forall x :: x in xs <==> x in ys
    ensures xs == ys
    decreases |xs|
  {
    assert xs != [] ==> xs[0] in ys;
    assert ys != [] ==> ys[0] in xs;
    if xs != [] && ys != [] {
      HeadBoundsTail(xs);
      HeadBoundsTail(ys);
      assert xs[0] == ys[0] by {
        if xs[0] != ys[0] {
          InTail(xs, ys[0]);
          InTail(ys, xs[0]);
        }
      }
      forall x ensures x in xs[1..] <==> x in ys[1..] {
        if x in xs[1..] {
          InTail(ys, x);
        }
        if x in ys[1..] {
          InTail(xs, x);
        }
      }
      StrictlyDescendingUnique(xs[1..], ys[1..]);
      assert xs == [xs[0]] + xs[1..] && ys == [ys[0]] + ys[1..];
    }
  }

  /** Whatever order the workers finish in, sorting their responses yields
      the canonical plan. */
  lemma SortedResponsesArePlan(process: Processor, b: seq<byte>, includes: map<nat, Tag>, responses: seq<Response>)
    requires InBuffer(includes, b)
    requires DistinctStarts(responses)
    requires forall x :: x in responses <==> Produced(process, b, includes, x)
    ensures SortByStartDesc(responses) == Plan(process, b, includes)
  {
    var sorted := SortByStartDesc(responses);
    SortByStartDescPermutes(responses);
    SortByStartDescOrders(responses);
    forall x ensures x in sorted <==> x in responses {
      assert x in sorted <==> x in multiset(sorted);
    }
    StrictlyDescendingUnique(sorted, Plan(process, b, includes));
  }

  /** A single match yields a plan of exactly its own response. */
  lemma SingleMatchPlan(process: Processor, b: seq<byte>, s: nat, t: Tag)
    requires s <= |b|
    ensures InBuffer(map[s := t], b)
    ensures Plan(process, b, map[s := t]) == [Resolved(process, b, s, t)]
  {
    var includes := map[s := t];
    assert InBuffer(includes, b);
    var plan := Plan(process, b, includes);
    assert Produced(process, b, includes, plan[0]) by { assert plan[0] in plan; }
  }

  /** Two matches yield a plan of their two responses, the upper one first. */
  lemma TwoMatchPlan(process: Processor, b: seq<byte>, s1: nat, s2: nat, t1: Tag, t2: Tag)
    requires s1 < s2 <= |b|
    ensures InBuffer(map[s1 := t1, s2 := t2], b)
    ensures Plan(process, b, map[s1 := t1, s2 := t2]) == [Resolved(process, b, s2, t2), Resolved(process, b, s1, t1)]
  {
    var includes := map[s1 := t1, s2 := t2];
    assert InBuffer(includes, b);
    var plan := Plan(process, b, includes);
    assert |plan| == 2;
    assert Produced(process, b, includes, plan[0]) by { assert plan[0] in plan; }
    assert Produced(process, b, includes, plan[1]) by { assert plan[1] in plan; }
    assert plan[0].start > plan[1].start;
  }
}

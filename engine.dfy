/**
  The driver of esi/esi.go: the `Parse` scan loop, which records every
  dispatched tag under its absolute offset, and `processEsiTags`, which
  resolves the recorded tags and splices the results into the buffer.
 */
module Engine {
  import opened Tags
  import Dispatch
  import opened Scanner
  import opened Splicing
  import opened Resolution

  /** Whether a dispatched tag is the escape variant, the case in which the
      scan loop skips the escape region's fixed header. */
  predicate IsEscapeTag(t: Option<Tag>)
  {
    t.Some? && t.value.EscapeTag?
  }

  /** What one pass of the scan loop finds in the rest `next` of the buffer:
      where the match starts, the tag its keyword selects, and how far the
      pointer then moves. */
  datatype Hit = Hit(offset: nat, tag: Option<Tag>, advance: nat)

  /** One pass of the scan loop: the earliest marker, the tag its keyword
      selects, and the move past the marker, plus the escape region's
      header when the tag is the escape variant. */
  function Visit(p: Patterns, next: seq<byte>): (r: Option<Hit>)
    ensures r.Some? ==> r.value.offset < |next|
  {
    match Earliest(p, next)
    case None => None
    case Some(m) =>
      var t := Dispatch.FindTagName(p.tagname, next[m.kw..]);
      Some(Hit(m.start, t, if IsEscapeTag(t) then m.kw + EscapeSkip else m.kw))
  }

  /** A pass finds something exactly when `HasOpenedTags` holds. It agrees
      with `ReadToTag` on the start and on the tag; the two add the header
      skip under different conditions, `ReadToTag` when the escape marker
      was chosen and the loop when the dispatched tag is the escape
      variant, so they move equally far exactly when those agree. */
  lemma VisitAgreesWithReadToTag(p: Patterns, next: seq<byte>)
    ensures Visit(p, next).None? <==> !HasOpenedTags(p, next)
    ensures Visit(p, next).Some? ==>
      && Visit(p, next).value.offset == ReadToTag(p, next).startTagPosition
      && Visit(p, next).value.tag == ReadToTag(p, next).t
      && (Visit(p, next).value.advance == ReadToTag(p, next).esiPointer
          <==> (Earliest(p, next).value.isEscape <==> IsEscapeTag(Visit(p, next).value.tag)))
  {
  }

  /** Whether the loop of `Parse`, from `pointer` on, ends on `b`: every pass
      it takes there moves the pointer forward. A pass that finds an escape
      marker at the very start of the rest of the buffer, and whose keyword
      does not select the escape variant, leaves the pointer where it is, and
      the loop then runs forever. */
  ghost predicate Terminates(p: Patterns, b: seq<byte>, pointer: nat)
    decreases |b| - pointer
  {
    pointer >= |b| ||
    match Visit(p, b[pointer..])
    case None => true
    case Some(h) => 0 < h.advance && Terminates(p, b, pointer + h.advance)
  }

  /** Patterns under which every pass, on any input, moves forward. */
  ghost predicate Advances(p: Patterns)
  {
    forall next: seq<byte> :: Visit(p, next).Some? ==> 0 < Visit(p, next).value.advance
  }

  /** Patterns that always move forward make the loop end on every buffer. */
  lemma {:induction false} AdvancingPatternsTerminate(p: Patterns, b: seq<byte>, pointer: nat)
    requires Advances(p)
    ensures Terminates(p, b, pointer)
    decreases |b| - pointer
  {
    if pointer < |b| {
      match Visit(p, b[pointer..])
      case None =>
      case Some(h) =>
        AdvancingPatternsTerminate(p, b, pointer + h.advance);
    }
  }

  /** The matches the scan loop records from `pointer` onwards, added to
      those already in `acc`. */
  function ScanFrom(p: Patterns, b: seq<byte>, pointer: nat, acc: map<nat, Tag>): map<nat, Tag>
    requires Terminates(p, b, pointer)
    decreases |b| - pointer
  {
    if pointer >= |b| then acc
    else
      match Visit(p, b[pointer..])
      case None => acc
      case Some(h) => ScanFrom(p, b, pointer + h.advance, Record(acc, pointer, h))
  }

  /** The scan only adds entries, each under an offset not yet passed and
      inside the buffer. */
  lemma {:induction false} ScanFromKeys(p: Patterns, b: seq<byte>, pointer: nat, acc: map<nat, Tag>)
    requires Terminates(p, b, pointer)
    ensures acc.Keys <= ScanFrom(p, b, pointer, acc).Keys
    ensures forall k :: k in ScanFrom(p, b, pointer, acc) ==> k in acc || pointer <= k < |b|
    decreases |b| - pointer
  {
    if pointer < |b| {
      match Visit(p, b[pointer..])
      case None =>
      case Some(h) =>
        ScanFromKeys(p, b, pointer + h.advance, Record(acc, pointer, h));
    }
  }

  /** The scan leaves the entries below the pointer as they are: a pass
      never records under an offset it has already moved past. */
  lemma {:induction false} ScanFromKeepsPassed(p: Patterns, b: seq<byte>, pointer: nat, acc: map<nat, Tag>)
    requires Terminates(p, b, pointer)
    ensures forall k :: k in acc && k < pointer ==> k in ScanFrom(p, b, pointer, acc) && ScanFrom(p, b, pointer, acc)[k] == acc[k]
    decreases |b| - pointer
  {
    if pointer < |b| {
      match Visit(p, b[pointer..])
      case None =>
      case Some(h) =>
        ScanFromKeepsPassed(p, b, pointer + h.advance, Record(acc, pointer, h));
    }
  }

  /** Every tag the scan records is freshly dispatched. */
  lemma {:induction false} ScanFromFresh(p: Patterns, b: seq<byte>, pointer: nat, acc: map<nat, Tag>)
    requires Terminates(p, b, pointer)
    requires forall k :: k in acc ==> acc[k].base == NewBaseTag()
    ensures forall k :: k in ScanFrom(p, b, pointer, acc) ==> ScanFrom(p, b, pointer, acc)[k].base == NewBaseTag()
    decreases |b| - pointer
  {
    if pointer < |b| {
      match Visit(p, b[pointer..])
      case None =>
      case Some(h) =>
        var next := b[pointer..];
        Dispatch.FindTagNameSpec(p.tagname, next[Earliest(p, next).value.kw..]);
        ScanFromFresh(p, b, pointer + h.advance, Record(acc, pointer, h));
    }
  }

  /** One pass of the loop: record the hit's tag, if any, and move on. */
  function Record(acc: map<nat, Tag>, pointer: nat, h: Hit): map<nat, Tag>
  {
    if h.tag.Some? then acc[pointer + h.offset := h.tag.value] else acc
  }

  /** A pass that does not move the pointer makes the loop run forever. */
  lemma StuckPassNeverEnds(p: Patterns, b: seq<byte>, pointer: nat)
    requires pointer < |b| && Visit(p, b[pointer..]).Some? && Visit(p, b[pointer..]).value.advance == 0
    ensures !Terminates(p, b, pointer)
  {
  }

  /** A pass that finds a marker is one step of the scan. */
  lemma ScanStep(p: Patterns, b: seq<byte>, pointer: nat, acc: map<nat, Tag>, h: Hit)
    requires Terminates(p, b, pointer) && pointer < |b| && Visit(p, b[pointer..]) == Some(h)
    ensures 0 < h.advance && Terminates(p, b, pointer + h.advance)
    ensures ScanFrom(p, b, pointer, acc) == ScanFrom(p, b, pointer + h.advance, Record(acc, pointer, h))
  {
  }

  /** The scan ends at the end of the buffer or at a pass that finds no
      marker. */
  lemma ScanStop(p: Patterns, b: seq<byte>, pointer: nat, acc: map<nat, Tag>)
    requires Terminates(p, b, pointer) && (pointer >= |b| || Visit(p, b[pointer..]).None?)
    ensures ScanFrom(p, b, pointer, acc) == acc
  {
  }

  /** The span the loop of `Parse` selects in `next`, written as the loop
      writes it (esi/esi.go, lines 84-89): the escape marker's start, as an
      empty span, when it wins, and the directive marker otherwise. It is
      the same choice as `Earliest`, seen as a span
      (`SelectedAgreesWithScanner`). */
  function Selected(p: Patterns, next: seq<byte>): Option<Span>
  {
    if EscapeWins(p, next) then Some(Span(p.escape(next).value.start, p.escape(next).value.start))
    else p.directive(next)
  }

  /** The selection, dispatch and move the loop of `Parse` computes are the
      pass `Visit` describes. */
  lemma SelectedIsVisit(p: Patterns, next: seq<byte>, t: Option<Tag>, advance: nat)
    requires Selected(p, next).Some?
    requires Selected(p, next).value.end <= |next|
    requires t == Dispatch.FindTagName(p.tagname, next[Selected(p, next).value.end..])
    requires advance == if IsEscapeTag(t) then Selected(p, next).value.end + EscapeSkip else Selected(p, next).value.end
    ensures Visit(p, next) == Some(Hit(Selected(p, next).value.start, t, advance))
  {
    EarliestChoice(p, next);
  }

  /** One pass of the loop of `Parse`, written as the loop computes it: the
      dispatched tag, the move and the updated map are exactly the pass
      `ScanFrom` takes. */
  lemma LoopPass(p: Patterns, b: seq<byte>, pointer: nat, acc: map<nat, Tag>,
                 tagIdx: Span, t: Option<Tag>, advance: nat, acc': map<nat, Tag>)
    requires Terminates(p, b, pointer) && pointer < |b|
    requires Selected(p, b[pointer..]) == Some(tagIdx) && tagIdx.end <= |b| - pointer
    requires t == Dispatch.FindTagName(p.tagname, b[pointer..][tagIdx.end..])
    requires advance == if IsEscapeTag(t) then tagIdx.end + EscapeSkip else tagIdx.end
    requires acc' == if t.Some? then acc[pointer + tagIdx.start := t.value] else acc
    ensures Visit(p, b[pointer..]) == Some(Hit(tagIdx.start, t, advance))
    ensures acc' == Record(acc, pointer, Hit(tagIdx.start, t, advance))
    ensures 0 < advance && Terminates(p, b, pointer + advance)
    ensures ScanFrom(p, b, pointer, acc) == ScanFrom(p, b, pointer + advance, acc')
  {
    var h := Hit(tagIdx.start, t, advance);
    assert Visit(p, b[pointer..]) == Some(h) by {
      SelectedIsVisit(p, b[pointer..], t, advance);
    }
    assert acc' == Record(acc, pointer, h);
    ScanStep(p, b, pointer, acc, h);
  }

  /** A pass of the loop of `Parse` that selects nothing ends the scan. */
  lemma LoopStop(p: Patterns, b: seq<byte>, pointer: nat, acc: map<nat, Tag>)
    requires Terminates(p, b, pointer) && pointer < |b| && Selected(p, b[pointer..]).None?
    ensures Visit(p, b[pointer..]).None?
    ensures ScanFrom(p, b, pointer, acc) == acc
  {
    assert Visit(p, b[pointer..]).None? by {
      EarliestChoice(p, b[pointer..]);
    }
    ScanStop(p, b, pointer, acc);
  }

  /** The match map `Parse` builds. */
  function Scan(p: Patterns, b: seq<byte>): (r: map<nat, Tag>)
    requires Terminates(p, b, 0)
    ensures forall k :: k in r ==> k < |b| && r[k].base == NewBaseTag()
  {
    ScanFromKeys(p, b, 0, map[]);
    ScanFromFresh(p, b, 0, map[]);
    ScanFrom(p, b, 0, map[])
  }

  /** The selection of the loop of `Parse` finds a span exactly when
      `HasOpenedTags` holds, and it starts where `ReadToTag` says the
      directive starts. */
  lemma SelectedAgreesWithScanner(p: Patterns, next: seq<byte>)
    ensures Selected(p, next).None? <==> !HasOpenedTags(p, next)
    ensures Selected(p, next).Some? ==>
      && Selected(p, next).value.start == ReadToTag(p, next).startTagPosition
      && Selected(p, next) == Some(Span(Earliest(p, next).value.start, Earliest(p, next).value.kw))
  {
    EarliestChoice(p, next);
  }

  /** How far one pass moves the pointer: to the end of the directive
      marker, or to the escape marker plus the header skip when the
      dispatched tag is the escape variant. It never moves back before the
      offset the pass records. */
  lemma VisitMoves(p: Patterns, next: seq<byte>)
    requires Visit(p, next).Some?
    ensures Visit(p, next).value.offset <= Visit(p, next).value.advance
    ensures EscapeWins(p, next) ==>
      Visit(p, next).value.advance ==
        p.escape(next).value.start + (if IsEscapeTag(Visit(p, next).value.tag) then EscapeSkip else 0)
    ensures !EscapeWins(p, next) ==>
      && p.directive(next).Some?
      && Visit(p, next).value.offset < p.directive(next).value.end
      && Visit(p, next).value.advance ==
           p.directive(next).value.end + (if IsEscapeTag(Visit(p, next).value.tag) then EscapeSkip else 0)
  {
    EarliestChoice(p, next);
  }

  /** A pass that dispatches a tag records it under its absolute offset,
      replacing whatever an earlier pass recorded there; every other entry
      is kept, and a pass that dispatches nothing records nothing. */
  lemma RecordOverwrites(acc: map<nat, Tag>, pointer: nat, h: Hit)
    ensures h.tag.None? ==> Record(acc, pointer, h) == acc
    ensures h.tag.Some? ==>
      && Record(acc, pointer, h).Keys == acc.Keys + {pointer + h.offset}
      && Record(acc, pointer, h)[pointer + h.offset] == h.tag.value
    ensures forall k :: k in acc && k != pointer + h.offset ==> Record(acc, pointer, h)[k] == acc[k]
  {
  }

  /** A buffer in which neither marker occurs yields no match at all. */
  lemma NoMarkersNoTags(p: Patterns, b: seq<byte>)
    requires !HasOpenedTags(p, b)
    ensures Terminates(p, b, 0) && Scan(p, b) == map[]
  {
    if |b| > 0 {
      assert b[0..] == b;
      VisitAgreesWithReadToTag(p, b);
      ScanStop(p, b, 0, map[]);
    }
  }

  /** `processEsiTags`: resolve every recorded match, sort the responses by
      descending start, and splice them into the buffer bottom-up. */
  method ProcessEsiTags(process: Processor, b: seq<byte>, includes: map<nat, Tag>) returns (out: Option<seq<byte>>)
    requires InBuffer(includes, b)
    ensures out == SpliceAll(b, Plan(process, b, includes))
    ensures Separated(Plan(process, b, includes)) ==> out == Some(Rebuilt(b, Plan(process, b, includes)))
  {
    var responses := Resolve(process, b, includes);
    var sorted := SortByStartDesc(responses);
    SortedResponsesArePlan(process, b, includes, responses);
    out := SpliceInPlace(b, sorted);
  }

  /** One pass of the loop of `Parse` over the rest of the buffer from
      `pointer`: select the earlier marker, stop when there is none,
      otherwise dispatch the keyword, record the tag under its absolute
      offset and move past the marker: the new pointer and map are those
      of the pass `Visit` describes, so it is one step of `ScanFrom`. */
  method ScanPass(p: Patterns, b: seq<byte>, pointer: nat, includes: map<nat, Tag>)
    returns (stop: bool, pointer': nat, includes': map<nat, Tag>)
    requires Terminates(p, b, pointer) && pointer < |b|
    ensures stop <==> Selected(p, b[pointer..]).None?
    ensures stop <==> Visit(p, b[pointer..]).None?
    ensures !stop ==> pointer' == pointer + Visit(p, b[pointer..]).value.advance
    ensures !stop ==> includes' == Record(includes, pointer, Visit(p, b[pointer..]).value)
    ensures stop ==> pointer' == pointer && includes' == includes && ScanFrom(p, b, pointer, includes) == includes
    ensures !stop ==> pointer < pointer' && Terminates(p, b, pointer')
    ensures !stop ==> ScanFrom(p, b, pointer, includes) == ScanFrom(p, b, pointer', includes')
  {
    var next := b[pointer..];
    var tagIdx := Selected(p, next);
    if tagIdx.None? {
      LoopStop(p, b, pointer, includes);
      return true, pointer, includes;
    }
    var t := Dispatch.FindTagName(p.tagname, next[tagIdx.value.end..]);
    includes' := includes;
    if t.Some? {
      includes' := includes'[pointer + tagIdx.value.start := t.value];
    }
    var advance := if IsEscapeTag(t) then tagIdx.value.end + EscapeSkip else tagIdx.value.end;
    LoopPass(p, b, pointer, includes, tagIdx.value, t, advance, includes');
    stop, pointer' := false, pointer + advance;
  }

  /** `Parse`: scan the buffer left to right, recording each dispatched tag
      under its absolute offset, then hand the matches to `processEsiTags`;
      a buffer with no recorded match comes back as it is. */
  method Parse(p: Patterns, process: Processor, b: seq<byte>) returns (out: Option<seq<byte>>)
    requires Terminates(p, b, 0)
    ensures out == SpliceAll(b, Plan(process, b, Scan(p, b)))
    ensures Separated(Plan(process, b, Scan(p, b))) ==> out == Some(Rebuilt(b, Plan(process, b, Scan(p, b))))
    ensures Scan(p, b) == map[] ==> out == Some(b)
  {
    var pointer: nat := 0;
    var includes: map<nat, Tag> := map[];
    var stop := false;
    while pointer < |b| && !stop
      invariant Terminates(p, b, pointer)
      invariant stop ==> ScanFrom(p, b, pointer, includes) == includes
      invariant ScanFrom(p, b, pointer, includes) == Scan(p, b)
      decreases |b| - pointer, if stop then 0 else 1
    {
      stop, pointer, includes := ScanPass(p, b, pointer, includes);
    }
    if !stop {
      ScanStop(p, b, pointer, includes);
    }
    if |includes| == 0 {
      assert Plan(process, b, includes) == [];
      assert Rebuilt(b, []) == b[0..|b|] == b;
      return Some(b);
    }
    out := ProcessEsiTags(process, b, includes);
  }

  /** The response of a match whose tag keeps the default `Process`. */
  lemma DefaultResolved(b: seq<byte>, s: nat, t: Tag)
    requires s <= |b|
    ensures Resolved(DefaultProcessor, b, s, t) == Response(s, |b|, [], t)
  {
    DefaultProcessClaimsAll(t, b[s..]);
  }

  /** A single match at `s` whose tag keeps the default `Process` claims the
      rest of the buffer and replaces it with nothing, so the splice leaves
      exactly the bytes before `s`. */
  lemma DefaultSingleMatchLeavesPrefix(b: seq<byte>, s: nat, t: Tag)
    requires s <= |b|
    ensures InBuffer(map[s := t], b)
    ensures SpliceAll(b, Plan(DefaultProcessor, b, map[s := t])) == Some(b[..s])
  {
    var r := Response(s, |b|, [], t);
    SingleMatchPlan(DefaultProcessor, b, s, t);
    DefaultResolved(b, s, t);
    assert Replace(b, r) == Some(b[..s]) by {
      assert b[..s] + r.res + b[r.end..] == b[..s];
    }
  }

  /** Two matches whose tags keep the default `Process` both claim the rest
      of the buffer. The upper one is spliced first and cuts the buffer short
      at its start, so the lower one's range then runs past the end: the
      rewrite is out of range and the whole run fails. */
  lemma DefaultTwoMatchesFail(b: seq<byte>, s1: nat, s2: nat, t1: Tag, t2: Tag)
    requires s1 < s2 < |b|
    ensures InBuffer(map[s1 := t1, s2 := t2], b)
    ensures SpliceAll(b, Plan(DefaultProcessor, b, map[s1 := t1, s2 := t2])) == None
  {
    var upper, lower := Response(s2, |b|, [], t2), Response(s1, |b|, [], t1);
    TwoMatchPlan(DefaultProcessor, b, s1, s2, t1, t2);
    DefaultResolved(b, s1, t1);
    DefaultResolved(b, s2, t2);
    assert Replace(b, upper) == Some(b[..s2]);
    assert Replace(b[..s2], lower) == None;
    assert [upper, lower][1..] == [lower];
  }
}

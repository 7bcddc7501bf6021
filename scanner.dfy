/**
  The scanner of esi/esi.go: finding the earliest of the two boundary markers
  (`HasOpenedTags`, `ReadToTag` and the head of the `Parse` loop).
 */
module Scanner {
  import opened Tags
  import Dispatch

  /** A match `[start, end)` as the regular expressions' `FindIndex` reports it. */
  datatype Span = Span(start: nat, end: nat)

  /** A reported match lies inside the searched bytes and is never empty.
      The patterns are declared outside this model; that their matches are
      non-empty is an assumption the model makes about them. */
  predicate Fits(m: Option<Span>, s: seq<byte>)
  {
    m.Some? ==> m.value.start < m.value.end <= |s|
  }

  /** The leftmost-match search of one marker pattern. The patterns
      themselves are configuration that is not part of this model. */
  type Finder = f: seq<byte> -> Option<Span> | forall s: seq<byte> :: Fits(f(s), s)
    witness (s: seq<byte>) => None

  /** The three process-wide patterns: the directive-open marker (`esi`),
      the escape-region marker (`escapeRg`) and the keyword extractor
      (`tagname`, with its captured group already read as a string). */
  datatype Patterns = Patterns(
    directive: Finder,
    escape: Finder,
    tagname: seq<byte> -> Option<string>)

  /** The width of the escape region's fixed header, skipped after it. */
  const EscapeSkip: nat := 7

  /** The boundary chosen in a span: where the directive starts, where its
      keyword starts, and whether it came from the escape pattern. */
  datatype Marker = Marker(start: nat, kw: nat, isEscape: bool)

  /** Whether the escape marker is taken over the directive marker: only when
      it is strictly earlier, so on a tie the directive wins. */
  predicate EscapeWins(p: Patterns, next: seq<byte>)
  {
    p.escape(next).Some? &&
    (p.directive(next).None? || p.escape(next).value.start < p.directive(next).value.start)
  }

  /** The marker selection shared by `ReadToTag` and the `Parse` loop. */
  function Earliest(p: Patterns, next: seq<byte>): (r: Option<Marker>)
    ensures r.Some? ==> r.value.start <= r.value.kw <= |next| && r.value.start < |next|
  {
    var tagIdx := p.directive(next);
    var escIdx := p.escape(next);
    if EscapeWins(p, next) then
      Some(Marker(escIdx.value.start, escIdx.value.start, true))
    else if tagIdx.None? then
      None
    else
      Some(Marker(tagIdx.value.start, tagIdx.value.end, false))
  }

  /** The selection finds a marker when either pattern matches, takes the
      one that starts first, and on a tie takes the directive. An escape
      region has no separate keyword; a directive's keyword follows its
      marker. */
  lemma EarliestChoice(p: Patterns, next: seq<byte>)
    ensures Earliest(p, next).None? <==> p.directive(next).None? && p.escape(next).None?
    ensures Earliest(p, next).Some? && p.directive(next).Some? ==>
      Earliest(p, next).value.start <= p.directive(next).value.start
    ensures Earliest(p, next).Some? && p.escape(next).Some? ==>
      Earliest(p, next).value.start <= p.escape(next).value.start
    ensures Earliest(p, next).Some? && Earliest(p, next).value.isEscape ==>
      var m := Earliest(p, next).value;
      EscapeWins(p, next) && m.kw == m.start == p.escape(next).value.start
    ensures Earliest(p, next).Some? && !Earliest(p, next).value.isEscape ==>
      var m := Earliest(p, next).value;
      !EscapeWins(p, next) && p.directive(next) == Some(Span(m.start, m.kw))
  {
  }

  /** `HasOpenedTags`: the cheap presence check. */
  function HasOpenedTags(p: Patterns, b: seq<byte>): (r: bool)
    ensures r <==> Earliest(p, b).Some?
  {
    EarliestChoice(p, b);
    p.directive(b).Some? || p.escape(b).Some?
  }

  /** What `ReadToTag` returns: the directive's start, the position after
      which the scan resumes, and the tag its keyword selects. */
  datatype TagPosition = TagPosition(startTagPosition: nat, esiPointer: nat, t: Option<Tag>)

  /** `ReadToTag`. Its `pointer` argument is unused and left out. */
  function ReadToTag(p: Patterns, next: seq<byte>): (r: TagPosition)
    ensures !HasOpenedTags(p, next) ==> r == TagPosition(|next|, 0, None)
    ensures EscapeWins(p, next) ==>
      var esc := p.escape(next).value;
      r == TagPosition(esc.start, esc.start + EscapeSkip, Dispatch.FindTagName(p.tagname, next[esc.start..]))
    ensures HasOpenedTags(p, next) && !EscapeWins(p, next) ==>
      var dir := p.directive(next).value;
      p.directive(next).Some? &&
      r == TagPosition(dir.start, dir.end, Dispatch.FindTagName(p.tagname, next[dir.end..])) &&
      r.startTagPosition < r.esiPointer <= |next|
  {
    EarliestChoice(p, next);
    match Earliest(p, next)
    case None => TagPosition(|next|, 0, None)
    case Some(m) =>
      var t := Dispatch.FindTagName(p.tagname, next[m.kw..]);
      TagPosition(m.start, if m.isEscape then m.kw + EscapeSkip else m.kw, t)
  }

  /** On equal starts the directive marker is the one taken. */
  lemma TieGoesToDirective(p: Patterns, next: seq<byte>)
    requires p.directive(next).Some? && p.escape(next).Some?
    requires p.directive(next).value.start == p.escape(next).value.start
    ensures Earliest(p, next) == Some(Marker(p.directive(next).value.start, p.directive(next).value.end, false))
    ensures ReadToTag(p, next).esiPointer == p.directive(next).value.end
  {
    EarliestChoice(p, next);
  }
}

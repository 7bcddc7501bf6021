/**
  The keyword dispatch of esi/esi.go (`findTagName`): the keyword that follows
  a directive marker selects the tag variant to build.
 */
module Dispatch {
  import opened Tags

  // The keyword spellings are declared in a file that is not part of this
  // model; the directive names stand in for them. Only their distinctness
  // matters to the dispatch.
  const CommentKeyword: string := "comment"
  const ChooseKeyword: string := "choose"
  const EscapeKeyword: string := "escape"
  const IncludeKeyword: string := "include"
  const RemoveKeyword: string := "remove"
  const TryKeyword: string := "try"
  const VarsKeyword: string := "vars"

  /** The keywords that build a tag; `try` is deliberately not among them. */
  const Supported: set<string> :=
    {CommentKeyword, ChooseKeyword, EscapeKeyword, IncludeKeyword, RemoveKeyword, VarsKeyword}

  /** The keyword that selects each variant. */
  function KeywordOf(t: Tag): (k: string)
    ensures k in Supported && k != TryKeyword
  {
    match t
    case CommentTag(_) => CommentKeyword
    case ChooseTag(_) => ChooseKeyword
    case EscapeTag(_) => EscapeKeyword
    case IncludeTag(_) => IncludeKeyword
    case RemoveTag(_) => RemoveKeyword
    case VarsTag(_) => VarsKeyword
  }

  /** `findTagName`: `tagname` extracts the keyword of the leftmost match of
      the keyword pattern anywhere in `b`, or nothing when it does not match. */
  function FindTagName(tagname: seq<byte> -> Option<string>, b: seq<byte>): Option<Tag>
  {
    match tagname(b)
    case None => None
    case Some(name) =>
      if name == CommentKeyword then Some(CommentTag(NewBaseTag()))
      else if name == ChooseKeyword then Some(ChooseTag(NewBaseTag()))
      else if name == EscapeKeyword then Some(EscapeTag(NewBaseTag()))
      else if name == IncludeKeyword then Some(IncludeTag(NewBaseTag()))
      else if name == RemoveKeyword then Some(RemoveTag(NewBaseTag()))
      else if name == TryKeyword then None
      else if name == VarsKeyword then Some(VarsTag(NewBaseTag()))
      else None
  }

  /** A tag is built exactly when the keyword is one of the supported six;
      it is the variant that keyword selects, with a fresh base state. */
  lemma FindTagNameSpec(tagname: seq<byte> -> Option<string>, b: seq<byte>)
    ensures FindTagName(tagname, b).Some? <==> tagname(b).Some? && tagname(b).value in Supported
    ensures FindTagName(tagname, b).Some? ==>
      KeywordOf(FindTagName(tagname, b).value) == tagname(b).value && FindTagName(tagname, b).value.base == NewBaseTag()
  {
  }

  /** `try` and every keyword outside the supported six are dropped. */
  lemma UnsupportedKeywordDropped(tagname: seq<byte> -> Option<string>, b: seq<byte>)
    requires tagname(b).None? || tagname(b).value == TryKeyword || tagname(b).value !in Supported
    ensures FindTagName(tagname, b) == None
  {
  }

  /** Each supported keyword builds a new tag of exactly its own variant. */
  lemma {:induction false} KeywordSelectsVariant(tagname: seq<byte> -> Option<string>, b: seq<byte>, t: Tag)
    requires t.base == NewBaseTag()
    requires tagname(b) == Some(KeywordOf(t))
    ensures FindTagName(tagname, b) == Some(t)
  {
    var r := FindTagName(tagname, b);
    assert r.Some?;
    match t
    case CommentTag(_) =>
    case ChooseTag(_) =>
    case EscapeTag(_) =>
    case IncludeTag(_) =>
    case RemoveTag(_) =>
    case VarsTag(_) =>
  }
}

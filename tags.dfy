/**
  The tag capability of esi/type.go: the variants a directive can resolve to,
  the base state every variant embeds, and the default `Process` behaviour.
 */
module Tags {

  /** A byte of the document body. */
  newtype byte = x: int | 0 <= x < 256

  datatype Option<+T> = None | Some(value: T)

  /** What `Process` hands back: the replacement bytes and how many bytes of
      its input the directive occupies. */
  datatype Reply = Reply(res: seq<byte>, length: nat)

  /** The state embedded in every tag variant (`baseTag`). Its `length`
      counter is never updated by this core. */
  datatype BaseTag = BaseTag(length: int)
  {
    /** The default `Process`: it replaces the directive with nothing and
        claims everything from the tag's own start to the end of the buffer
        it was given. The request argument is ignored. */
    function Process(content: seq<byte>): Reply
    {
      Reply([], |content|)
    }
  }

  /** A fresh base state, as every dispatched tag is built with. */
  function NewBaseTag(): (t: BaseTag)
    ensures t.length == 0
  {
    BaseTag(0)
  }

  /** The concrete directive variants, each embedding its own base state. */
  datatype Tag =
    | CommentTag(base: BaseTag)
    | ChooseTag(base: BaseTag)
    | EscapeTag(base: BaseTag)
    | IncludeTag(base: BaseTag)
    | RemoveTag(base: BaseTag)
    | VarsTag(base: BaseTag)

  /** The `Process` capability of every variant, dispatched on the tag. The
      concrete variants' own implementations are not part of this model: any
      function of this type may stand for them, provided the span it claims
      never runs past the body it was given. */
  type Processor = f: (Tag, seq<byte>) -> Reply | forall t: Tag, body: seq<byte> :: f(t, body).length <= |body|
    witness (t: Tag, body: seq<byte>) => Reply([], 0)

  /** Every variant falling back on the embedded default `Process`. */
  const DefaultProcessor: Processor := (t: Tag, body: seq<byte>) => t.base.Process(body)

  /** The default reply replaces the directive with nothing, claims the whole
      body, and so never runs past it. */
  lemma DefaultProcessClaimsAll(t: Tag, body: seq<byte>)
    ensures DefaultProcessor(t, body).res == []
    ensures DefaultProcessor(t, body).length == |body|
  {
  }
}

/** Inline text fragments: a piece of text tagged with its style. */
module TextNodes {
  import opened Wrappers

  /** The inline styles a fragment can carry. */
  datatype TextType = Text | Bold | Italic | Code | Link | Image

  /** A fragment of inline text; `url` is only meaningful for links and images. */
  datatype TextNode = TextNode(text: string, textType: TextType, url: Option<string>)
}

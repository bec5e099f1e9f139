/**
 The boundary with the YAML library (gopkg.in/yaml.v3). Decoding and encoding
 are foreign code: a decoder is described by the outcomes its successive
 `Decode` calls return, and an encoder by a function from a document and an
 indentation width to the text it writes.
 */
module Yaml {

  /** A parsed YAML document: the library's node tree, which this model never inspects. */
  datatype Node =
    | Null
    | Scalar(value: string)
    | Sequence(items: seq<Node>)
    | Mapping(pairs: seq<(Node, Node)>)

  /** What one `Decode` call returns: a document, end of input, or a parse error. */
  datatype Decoded = Doc(node: Node) | EOF | Error(message: string)

  /** A fresh encoder configured with `SetIndent(indent)` that writes one document and is closed. */
  type Encoder = (Node, int) -> string

  /**
   The outcome of the `i`-th `Decode` call on a decoder whose outcomes are
   listed in `outcomes`; a decoder whose listed outcomes are used up is at
   end of input.
   */
  function Next(outcomes: seq<Decoded>, i: nat): Decoded
  {
    if i < |outcomes| then outcomes[i] else EOF
  }
}

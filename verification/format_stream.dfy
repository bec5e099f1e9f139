/**
 The stream reformatter (`formatStream` in main.go): decode one document
 ahead, encode the current one, and write a separator line only when the
 look-ahead decode produced another document.

 The bytes written are described by a sequence of pieces, each either the
 separator line or one encoded document, so that where separators fall is
 stated independently of what the encoder writes.
 */
module Reformat {
  import opened Outcomes
  import opened Yaml
  import opened Affixes

  /** The separator line written by `fmt.Fprintln(out, "---")` and `fmt.Println("---")`. */
  const Marker: string := "---\n"

  /** One unit of output: the separator line, or the encoding of one document. */
  datatype Piece = Separator | Body(node: Node)

  /** The bytes one piece stands for; every document uses the same `indent`. */
  function Text(p: Piece, enc: Encoder, indent: int): string
  {
    match p
    case Separator => Marker
    case Body(d) => enc(d, indent)
  }

  /** The bytes written for a sequence of pieces, in order. */
  function Render(ps: seq<Piece>, enc: Encoder, indent: int): string
    decreases |ps|
  {
    if |ps| == 0 then "" else Render(ps[..|ps| - 1], enc, indent) + Text(ps[|ps| - 1], enc, indent)
  }

  /** One more piece adds its text at the end of the output. */
  lemma RenderSnocPiece(ps: seq<Piece>, p: Piece, enc: Encoder, indent: int)
    ensures Render(ps + [p], enc, indent) == Render(ps, enc, indent) + Text(p, enc, indent)
  {
    assert (ps + [p])[..|ps|] == ps;
  }

  /** Rendering distributes over concatenation: the output of `a + b` is the output of `a` followed by that of `b`. */
  lemma {:induction false} RenderAppend(a: seq<Piece>, b: seq<Piece>, enc: Encoder, indent: int)
    ensures Render(a + b, enc, indent) == Render(a, enc, indent) + Render(b, enc, indent)
    decreases |b|
  {
    if |b| == 0 {
      assert a + b == a;
    } else {
      var b', last := b[..|b| - 1], b[|b| - 1];
      var ra, t := Render(a, enc, indent), Text(last, enc, indent);
      calc {
        Render(a + b, enc, indent);
        { assert a + b == (a + b') + [last]; }
        Render((a + b') + [last], enc, indent);
        { RenderSnocPiece(a + b', last, enc, indent); }
        Render(a + b', enc, indent) + t;
        { RenderAppend(a, b', enc, indent); }
        ra + Render(b', enc, indent) + t;
        ra + (Render(b', enc, indent) + t);
        { RenderSnocPiece(b', last, enc, indent); assert b == b' + [last]; }
        ra + Render(b, enc, indent);
      }
    }
  }

  /** The number of separator lines among the pieces. */
  function SeparatorCount(ps: seq<Piece>): nat
    decreases |ps|
  {
    if |ps| == 0 then 0
    else SeparatorCount(ps[..|ps| - 1]) + (if ps[|ps| - 1].Separator? then 1 else 0)
  }

  /** The documents among the pieces, in output order. */
  function Bodies(ps: seq<Piece>): seq<Node>
    decreases |ps|
  {
    if |ps| == 0 then []
    else Bodies(ps[..|ps| - 1]) + (if ps[|ps| - 1].Body? then [ps[|ps| - 1].node] else [])
  }

  lemma {:induction false} SeparatorCountAppend(a: seq<Piece>, b: seq<Piece>)
    ensures SeparatorCount(a + b) == SeparatorCount(a) + SeparatorCount(b)
    decreases |b|
  {
    if |b| == 0 {
      assert a + b == a;
    } else {
      var b' := b[..|b| - 1];
      assert (a + b)[..|a + b| - 1] == a + b';
      SeparatorCountAppend(a, b');
    }
  }

  lemma {:induction false} BodiesAppend(a: seq<Piece>, b: seq<Piece>)
    ensures Bodies(a + b) == Bodies(a) + Bodies(b)
    decreases |b|
  {
    if |b| == 0 {
      assert a + b == a;
    } else {
      var b' := b[..|b| - 1];
      assert (a + b)[..|a + b| - 1] == a + b';
      BodiesAppend(a, b');
    }
  }

  /**
   The documents a decoder yields before its first non-document outcome:
   the documents the loop of `formatStream` encodes.
   */
  function Documents(outcomes: seq<Decoded>): seq<Node>
    decreases |outcomes|
  {
    if |outcomes| == 0 || !outcomes[0].Doc? then []
    else [outcomes[0].node] + Documents(outcomes[1..])
  }

  /**
   The documents are exactly the leading run of successful decodes: each of
   them is the outcome at its position, and the outcome right after them is
   not a document.
   */
  lemma {:induction false} DocumentsShape(outcomes: seq<Decoded>)
    ensures var docs := Documents(outcomes);
            && |docs| <= |outcomes|
            && (forall j | 0 <= j < |docs| :: outcomes[j] == Doc(docs[j]))
            && !Next(outcomes, |docs|).Doc?
    decreases |outcomes|
  {
    if |outcomes| > 0 && outcomes[0].Doc? {
      DocumentsShape(outcomes[1..]);
      var docs := Documents(outcomes);
      forall j | 0 <= j < |docs|
        ensures outcomes[j] == Doc(docs[j])
      {
        if j > 0 {
          assert outcomes[j] == outcomes[1..][j - 1];
        }
      }
    }
  }

  /** The outcome that stopped the loop: end of input or a parse error. */
  function Ending(outcomes: seq<Decoded>): (e: Decoded)
    ensures !e.Doc?
  {
    DocumentsShape(outcomes);
    Next(outcomes, |Documents(outcomes)|)
  }

  /**
   The intended placement: the documents in order, with one separator
   strictly between each neighbouring pair and none before the first or
   after the last.
   */
  function Layout(docs: seq<Node>): seq<Piece>
    decreases |docs|
  {
    if |docs| == 0 then []
    else if |docs| == 1 then [Body(docs[0])]
    else Layout(docs[..|docs| - 1]) + [Separator, Body(docs[|docs| - 1])]
  }

  /**
   Where every piece of a layout falls: document j at position 2j and a
   separator at every odd position, so there are 2k - 1 pieces for k > 0
   documents, a document first and a document last.
   */
  lemma {:induction false} LayoutShape(docs: seq<Node>)
    ensures var ps := Layout(docs);
            && |ps| == (if |docs| == 0 then 0 else 2 * |docs| - 1)
            && forall j | 0 <= j < |ps| :: ps[j] == if j % 2 == 0 then Body(docs[j / 2]) else Separator
    decreases |docs|
  {
    if |docs| > 1 {
      var init := docs[..|docs| - 1];
      LayoutShape(init);
      var ps := Layout(docs);
      assert ps == Layout(init) + [Separator, Body(docs[|docs| - 1])];
      forall j | 0 <= j < |ps|
        ensures ps[j] == if j % 2 == 0 then Body(docs[j / 2]) else Separator
      {
        if j < |ps| - 2 {
          assert ps[j] == Layout(init)[j];
        }
      }
    }
  }

  /** Documents and separators strictly alternate, starting and ending with a document. */
  predicate Alternating(ps: seq<Piece>)
  {
    && (|ps| == 0 || |ps| % 2 == 1)
    && forall j | 0 <= j < |ps| :: ps[j].Separator? <==> j % 2 == 1
  }

  /** k documents are laid out with exactly max(k - 1, 0) separators, and in their original order. */
  lemma {:induction false} LayoutCounts(docs: seq<Node>)
    ensures SeparatorCount(Layout(docs)) == if |docs| == 0 then 0 else |docs| - 1
    ensures Bodies(Layout(docs)) == docs
    decreases |docs|
  {
    if |docs| == 0 {
    } else if |docs| == 1 {
      var ps := Layout(docs);
      assert ps[..0] == [];
    } else {
      var init := docs[..|docs| - 1];
      LayoutCounts(init);
      var tail := [Separator, Body(docs[|docs| - 1])];
      SeparatorCountAppend(Layout(init), tail);
      BodiesAppend(Layout(init), tail);
      assert tail[..1] == [Separator] && [Separator][..0] == [];
      assert init + [docs[|docs| - 1]] == docs;
    }
  }

  lemma {:induction false} AlternatingIsLayout(ps: seq<Piece>)
    requires Alternating(ps)
    ensures ps == Layout(Bodies(ps))
    decreases |ps|
  {
    if |ps| == 0 {
    } else if |ps| == 1 {
      assert ps[..0] == [];
      assert ps == [Body(ps[0].node)];
    } else {
      var n := |ps|;
      var init := ps[..n - 2];
      assert Alternating(init);
      AlternatingIsLayout(init);
      var d := Bodies(init);
      assert |d| > 0;
      assert ps[n - 1].Body? && ps[n - 2] == Separator;
      var x := ps[n - 1].node;
      assert ps[..n - 1][..n - 2] == init;
      assert Bodies(ps[..n - 1]) == d;
      assert Bodies(ps) == d + [x];
      var d' := d + [x];
      assert d'[..|d'| - 1] == d;
      assert Layout(d') == init + [Separator, Body(x)];
      assert ps == init + [Separator, Body(x)];
    }
  }

  /**
   The placement rule pins the output down: a piece sequence is the layout
   of `docs` exactly when its pieces alternate document / separator and its
   documents are `docs`.
   */
  lemma {:induction false} LayoutIsUnique(ps: seq<Piece>, docs: seq<Node>)
    ensures ps == Layout(docs) <==> Alternating(ps) && Bodies(ps) == docs
  {
    if ps == Layout(docs) {
      LayoutShape(docs);
      LayoutCounts(docs);
    }
    if Alternating(ps) && Bodies(ps) == docs {
      AlternatingIsLayout(ps);
    }
  }

  /** Appending a document to a non-empty layout adds one separator and then its encoding. */
  lemma RenderSnoc(docs: seq<Node>, d: Node, enc: Encoder, indent: int)
    requires |docs| > 0
    ensures Render(Layout(docs + [d]), enc, indent)
         == Render(Layout(docs), enc, indent) + Marker + enc(d, indent)
  {
    var ds := docs + [d];
    assert ds[..|ds| - 1] == docs;
    var tail := [Separator, Body(d)];
    assert Layout(ds) == Layout(docs) + tail;
    RenderAppend(Layout(docs), tail, enc, indent);
    assert tail[..1] == [Separator];
    assert [Separator][..0] == [];
  }

  /** Writing the documents one at a time: document `i` comes after a separator unless it is the first. */
  lemma RenderPrefixStep(docs: seq<Node>, i: nat, enc: Encoder, indent: int)
    requires i < |docs|
    ensures Render(Layout(docs[..i + 1]), enc, indent)
         == Render(Layout(docs[..i]), enc, indent) + (if 0 < i then Marker else "") + enc(docs[i], indent)
  {
    assert docs[..i + 1] == docs[..i] + [docs[i]];
    if i == 0 {
      assert docs[..1] == [docs[0]];
      assert Layout([docs[0]])[..0] == [];
    } else {
      RenderSnoc(docs[..i], docs[i], enc, indent);
    }
  }

  /** A non-empty layout is written ending with the encoding of its last document. */
  lemma RenderEndsWithLast(docs: seq<Node>, enc: Encoder, indent: int)
    requires |docs| > 0
    ensures HasSuffix(Render(Layout(docs), enc, indent), enc(docs[|docs| - 1], indent))
  {
    var ps := Layout(docs);
    assert ps[|ps| - 1] == Body(docs[|docs| - 1]);
  }

  /**
   `formatStream`: decode one document ahead, encode the current document
   with a fresh encoder set to `indent`, and write the separator only when
   the look-ahead decode succeeded. The error result is the parse error
   that stopped the loop, and nothing when it stopped at end of input.
   */
  method FormatStream(outcomes: seq<Decoded>, enc: Encoder, indent: int) returns (out: string, err: Option<string>)
    ensures out == Render(Layout(Documents(outcomes)), enc, indent)
    ensures err.Some? <==> Ending(outcomes).Error?
    ensures err.Some? ==> err.value == Ending(outcomes).message
    ensures Next(outcomes, 0) == EOF ==> out == "" && err == None
    ensures var docs := Documents(outcomes);
            |docs| > 0 ==> HasSuffix(out, enc(docs[|docs| - 1], indent))
  {
    ghost var docs := Documents(outcomes);
    DocumentsShape(outcomes);
    var i := 0;
    var cur := Next(outcomes, 0);
    out := "";
    while cur.Doc?
      invariant i <= |docs|
      invariant cur == Next(outcomes, i)
      invariant 0 < i && cur.Doc? ==> out == Render(Layout(docs[..i]), enc, indent) + Marker
      invariant !(0 < i && cur.Doc?) ==> out == Render(Layout(docs[..i]), enc, indent)
      decreases |outcomes| - i
    {
      assert i < |docs| && docs[i] == cur.node;
      RenderPrefixStep(docs, i, enc, indent);
      out := out + enc(cur.node, indent);
      i := i + 1;
      cur := Next(outcomes, i);
      if cur.Doc? {
        out := out + Marker;
      }
    }
    assert i == |docs|;
    assert docs[..i] == docs;
    if 0 < i {
      RenderEndsWithLast(docs, enc, indent);
    }
    if cur.Error? {
      err := Some(cur.message);
    } else {
      err := None;
    }
  }

  /** The outcomes of a decoder that yields `docs`, one `Decode` call each. */
  function AsOutcomes(docs: seq<Node>): seq<Decoded>
  {
    seq(|docs|, j requires 0 <= j < |docs| => Doc(docs[j]))
  }

  /**
   A decoder that yields `docs` and then stops with end of input or a parse
   error: exactly `docs` are encoded, and that stop is what `formatStream`
   reports, whatever the decoder would have returned afterwards.
   */
  lemma {:induction false} StoppedStream(docs: seq<Node>, stop: Decoded, rest: seq<Decoded>)
    requires !stop.Doc?
    ensures Documents(AsOutcomes(docs) + [stop] + rest) == docs
    ensures Ending(AsOutcomes(docs) + [stop] + rest) == stop
    decreases |docs|
  {
    var outcomes := AsOutcomes(docs) + [stop] + rest;
    if |docs| > 0 {
      StoppedStream(docs[1..], stop, rest);
      assert outcomes[1..] == AsOutcomes(docs[1..]) + [stop] + rest;
      assert docs == [docs[0]] + docs[1..];
    }
  }

  /**
   The output depends on the encoder only through `enc(_, indent)`: every
   document is encoded with the one caller-supplied indentation.
   */
  lemma {:induction false} OneIndentForAll(ps: seq<Piece>, enc1: Encoder, indent1: int, enc2: Encoder, indent2: int)
    requires forall d :: enc1(d, indent1) == enc2(d, indent2)
    ensures Render(ps, enc1, indent1) == Render(ps, enc2, indent2)
    decreases |ps|
  {
    if |ps| > 0 {
      OneIndentForAll(ps[..|ps| - 1], enc1, indent1, enc2, indent2);
    }
  }
}

/**
 Render-time classification of the target text (`TextToType`): the text is
 split into words and each word into characters; every character gets a
 colour from the typed text and the error mask, and the one at the typing
 position carries the cursor marker. Spaces are not rendered as characters.
 */
module Render {
  import opened Text
  import opened ErrorMask

  /** The three colours a character can take: neutral grey, green, red. */
  datatype Colour = Untyped | Correct | Wrong

  /** The cursor marker: absent, present but transparent, or shown in yellow. */
  datatype Marker = NoMarker | Hidden | Shown

  /** One rendered character and its position `index` in the target text. */
  datatype Cell = Cell(ch: char, index: nat, colour: Colour, marker: Marker)

  /** The colour of character `ch` rendered at global index `g`. A character
      typed over is green when it matches; a mismatch is red only if the mask
      flags its position, otherwise it stays neutral, as does anything not yet
      typed. */
  function ColourOf(ch: char, g: nat, typed: string, mask: seq<bool>): (c: Colour)
    ensures c == Correct <==> g < |typed| && typed[g] == ch
    ensures c == Wrong <==> g < |typed| && typed[g] != ch && FlagOf(mask, g)
    ensures g >= |typed| ==> c == Untyped
  {
    if g < |typed| then
      if typed[g] == ch then Correct
      else if FlagOf(mask, g) then Wrong
      else Untyped
    else Untyped
  }

  /** The cursor marker before the character at global index `g`: present only
      at the typing position, and visible only while the trainer is active. */
  function MarkerOf(g: nat, typed: string, active: bool): (m: Marker)
    ensures m != NoMarker <==> g == |typed|
    ensures m == Shown <==> g == |typed| && active
  {
    if g == |typed| then (if active then Shown else Hidden) else NoMarker
  }

  /** The cell for character `j` of word `k`. */
  function CellAt(words: seq<string>, k: nat, j: nat, typed: string, mask: seq<bool>, active: bool): Cell
    requires k < |words| && j < |words[k]|
  {
    var g := WordStart(words, k) + j;
    Cell(words[k][j], g, ColourOf(words[k][j], g, typed, mask), MarkerOf(g, typed, active))
  }

  /** The rendered text: one row of cells per word of `text.split(' ')`. */
  function RenderText(text: string, typed: string, mask: seq<bool>, active: bool): (rows: seq<seq<Cell>>)
    ensures |rows| == |Split(text)|
    ensures forall k :: 0 <= k < |rows| ==> |rows[k]| == |Split(text)[k]|
  {
    var words := Split(text);
    seq(|words|, k requires 0 <= k < |words| =>
      seq(|words[k]|, j requires 0 <= j < |words[k]| => CellAt(words, k, j, typed, mask, active)))
  }

  /** Every cell shows the character of the text at its global index, and its
      colour is decided against that character of the target: correct exactly
      when typed and equal, wrong exactly when typed, different and flagged,
      neutral whenever not yet typed. */
  lemma RenderedCell(text: string, typed: string, mask: seq<bool>, active: bool, k: nat, j: nat)
    requires k < |Split(text)| && j < |Split(text)[k]|
    ensures var c := RenderText(text, typed, mask, active)[k][j];
      && c.index == WordStart(Split(text), k) + j
      && c.index < |text|
      && c.ch == text[c.index]
      && (c.colour == Correct <==> c.index < |typed| && typed[c.index] == text[c.index])
      && (c.colour == Wrong <==> c.index < |typed| && typed[c.index] != text[c.index] && FlagOf(mask, c.index))
      && (c.index >= |typed| ==> c.colour == Untyped)
  {
    TextCharAt(text, k, j);
  }

  /** Distinct cells sit at distinct positions of the text. */
  lemma RenderedIndicesDistinct(text: string, typed: string, mask: seq<bool>, active: bool,
                                k1: nat, j1: nat, k2: nat, j2: nat)
    requires k1 < |Split(text)| && j1 < |Split(text)[k1]|
    requires k2 < |Split(text)| && j2 < |Split(text)[k2]|
    requires (k1, j1) != (k2, j2)
    ensures RenderText(text, typed, mask, active)[k1][j1].index
         != RenderText(text, typed, mask, active)[k2][j2].index
  {
    if WordStart(Split(text), k1) + j1 == WordStart(Split(text), k2) + j2 {
      GlobalIndexInjective(Split(text), k1, j1, k2, j2);
    }
  }

  /** Every non-space character of the text is rendered by some cell. */
  lemma RenderedCovers(text: string, typed: string, mask: seq<bool>, active: bool, i: nat)
    returns (k: nat, j: nat)
    requires i < |text| && text[i] != ' '
    ensures k < |Split(text)| && j < |Split(text)[k]|
    ensures RenderText(text, typed, mask, active)[k][j].index == i
  {
    k, j := TextLocate(text, i);
  }

  /** At most one cell carries the cursor marker, and it is the one at the
      typing position; it is visible exactly when the trainer is active. */
  lemma CursorUnique(text: string, typed: string, mask: seq<bool>, active: bool,
                     k1: nat, j1: nat, k2: nat, j2: nat)
    requires k1 < |Split(text)| && j1 < |Split(text)[k1]|
    requires k2 < |Split(text)| && j2 < |Split(text)[k2]|
    requires RenderText(text, typed, mask, active)[k1][j1].marker != NoMarker
    requires RenderText(text, typed, mask, active)[k2][j2].marker != NoMarker
    ensures k1 == k2 && j1 == j2
    ensures RenderText(text, typed, mask, active)[k1][j1].index == |typed|
    ensures RenderText(text, typed, mask, active)[k1][j1].marker == Shown <==> active
  {
    GlobalIndexInjective(Split(text), k1, j1, k2, j2);
  }

  /** The cursor marker is placed when the typing position holds a non-space
      character of the text. */
  lemma CursorPlaced(text: string, typed: string, mask: seq<bool>, active: bool) returns (k: nat, j: nat)
    requires |typed| < |text| && text[|typed|] != ' '
    ensures k < |Split(text)| && j < |Split(text)[k]|
    ensures RenderText(text, typed, mask, active)[k][j].marker != NoMarker
  {
    k, j := TextLocate(text, |typed|);
  }

  /** No marker appears when the typing position is a space or past the end. */
  lemma CursorAbsent(text: string, typed: string, mask: seq<bool>, active: bool)
    requires |typed| >= |text| || text[|typed|] == ' '
    ensures forall k, j :: 0 <= k < |Split(text)| && 0 <= j < |Split(text)[k]| ==>
              RenderText(text, typed, mask, active)[k][j].marker == NoMarker
  {
    SplitSpaceFree(text);
    forall k, j | 0 <= k < |Split(text)| && 0 <= j < |Split(text)[k]|
      ensures RenderText(text, typed, mask, active)[k][j].marker == NoMarker
    {
      TextCharAt(text, k, j);
      assert text[WordStart(Split(text), k) + j] != ' ' by {
        assert SpaceFree(Split(text)[k]);
        assert Split(text)[k][j] in Split(text)[k];
      }
    }
  }
}

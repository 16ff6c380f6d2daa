/** The word boxes Tesseract's `image_to_data` reports for a rendered page.
    Rendering and recognition are outside the model: a page's words are an
    input, one `Word` per entry of the parallel `text`/`left`/`top`/`width`
    lists, in Tesseract's order.
 */
module Ocr {

  datatype Word = Word(text: string, left: int, top: int, width: int)

  function Abs(x: int): (r: nat)
    ensures r == x || r == -x
  {
    if x < 0 then -x else x
  }

  /** The x coordinate just past the word's box. */
  function RightEdge(w: Word): (r: int) {
    w.left + w.width
  }

  /** `w` starts strictly right of `edge` and its top lies within
      `tolerance` pixels of `rowTop`: the band test both OCR readers use. */
  predicate InBand(w: Word, edge: int, rowTop: int, tolerance: nat) {
    w.left > edge && Abs(w.top - rowTop) < tolerance
  }
}

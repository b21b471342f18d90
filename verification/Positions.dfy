/** Positions in a document and their order (Pos, cmp, maxPos and minPos of the editor). */
module Positions {

  datatype Pos = Pos(line: int, ch: int)

  /** Negative, zero or positive as `a` lies before, at or after `b`. */
  function Cmp(a: Pos, b: Pos): int {
    if a.line != b.line then a.line - b.line else a.ch - b.ch
  }

  function MaxPos(a: Pos, b: Pos): Pos {
    if Cmp(a, b) < 0 then b else a
  }

  function MinPos(a: Pos, b: Pos): Pos {
    if Cmp(a, b) < 0 then a else b
  }

  /** The position reached by walking `step` from `p`, where `step` counts line breaks and then characters. */
  function Plus(p: Pos, step: Pos): Pos {
    if step.line == 0 then Pos(p.line, p.ch + step.ch) else Pos(p.line + step.line, step.ch)
  }
}

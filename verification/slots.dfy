/** The eight Moore-neighbourhood directions and the fixed order in which both
    programs store them: upper-left, upper-middle, upper-right, middle-left,
    middle-right, lower-left, lower-middle, lower-right. "Upper" is the row
    above (y - 1) and "left" the column to the left (x - 1). */
module Slots {

  datatype Slot = UL | UM | UR | ML | MR | LL | LM | LR

  /** Position of a slot in the eight-entry neighbour table. */
  function Index(s: Slot): (i: nat)
    ensures i < 8
    ensures i == RowMajor(s) - (if RowMajor(s) > 4 then 1 else 0)
  {
    match s
    case UL => 0
    case UM => 1
    case UR => 2
    case ML => 3
    case MR => 4
    case LL => 5
    case LM => 6
    case LR => 7
  }

  /** Inverse of `Index`. */
  function SlotAt(i: nat): (s: Slot)
    requires i < 8
    ensures Index(s) == i
  {
    if i == 0 then UL else if i == 1 then UM else if i == 2 then UR
    else if i == 3 then ML else if i == 4 then MR else if i == 5 then LL
    else if i == 6 then LM else LR
  }

  /** Column offset of a slot. */
  function Dx(s: Slot): int {
    match s
    case UL | ML | LL => -1
    case UM | LM => 0
    case UR | MR | LR => 1
  }

  /** Row offset of a slot. */
  function Dy(s: Slot): int {
    match s
    case UL | UM | UR => -1
    case ML | MR => 0
    case LL | LM | LR => 1
  }

  /** Position of the slot's offset in the 3x3 block around a cell, read row
      by row; the centre (position 4) is the cell itself. */
  function RowMajor(s: Slot): int {
    (Dy(s) + 1) * 3 + (Dx(s) + 1)
  }

  /** A slot is determined by its position in the table. */
  lemma IndexInjective(s: Slot, t: Slot)
    requires Index(s) == Index(t)
    ensures s == t
  {
  }

  /** The slot with a given non-zero offset in `{-1, 0, 1}^2`. */
  function FromOffset(dx: int, dy: int): (s: Slot)
    requires -1 <= dx <= 1 && -1 <= dy <= 1
    requires dx != 0 || dy != 0
    ensures Dx(s) == dx && Dy(s) == dy
  {
    if dy == -1 then (if dx == -1 then UL else if dx == 0 then UM else UR)
    else if dy == 0 then (if dx == -1 then ML else MR)
    else (if dx == -1 then LL else if dx == 0 then LM else LR)
  }

  /** Every slot has a non-zero offset in `{-1, 0, 1}^2`, and distinct slots
      have distinct offsets. */
  lemma OffsetsDistinct(s: Slot, t: Slot)
    ensures -1 <= Dx(s) <= 1 && -1 <= Dy(s) <= 1
    ensures Dx(s) != 0 || Dy(s) != 0
    ensures Dx(s) == Dx(t) && Dy(s) == Dy(t) ==> s == t
  {
  }

  /** The geometrically opposite direction: UL/LR, UM/LM, UR/LL, ML/MR. */
  function Opposite(s: Slot): (o: Slot)
    ensures Dx(o) == -Dx(s) && Dy(o) == -Dy(s)
    ensures Index(o) == 7 - Index(s)
  {
    FromOffset(-Dx(s), -Dy(s))
  }
}

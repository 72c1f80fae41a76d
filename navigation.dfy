/**
 * The cursor movement table `c_move` of launcher.py: eight key entries, each
 * a (guard, transform, clamp) triple over the cursor position (x, y) and the
 * sub-window bounds.  The key loop applies an entry as
 *
 *     if guard(x, y): x, y = transform(x, y)
 *
 * and never calls the clamp, so a move whose guard fails leaves the cursor
 * where it is.
 */
module Navigation {
  import opened Wrappers

  /** Cursor position: column x, row y. */
  datatype Pos = Pos(x: int, y: int)

  /** The rows the cursor may occupy: the first node row and the last one. */
  datatype Bounds = Bounds(minY: int, maxY: int)

  /** First column and first node row of the sub-window (`swin_size.min_x, swin_size.min_y = 1, 4`). */
  const MinX: int := 1
  const MinY: int := 4

  /**
   * The row of the horizontal rule under the help lines (`MinY - 1`): with
   * `nodeCount` nodes listed from row `MinY` on, the last one sits on row
   * `nodeCount + HeaderRows`.
   */
  const HeaderRows: int := 3

  /** `swin_size.max_y = len(nodes) + 3`: the row of the last listed node. */
  function MaxY(nodeCount: nat): int {
    nodeCount + HeaderRows
  }

  /** The bounds in force after a scan that found `nodeCount` nodes. */
  function BoundsFor(nodeCount: nat): (b: Bounds)
    ensures nodeCount >= 1 ==> b.minY <= b.maxY
    ensures b.maxY - b.minY + 1 == nodeCount
  {
    Bounds(MinY, MaxY(nodeCount))
  }

  /** The eight entries of the table, one per key string. */
  datatype MoveKey = K | KeyUp | J | KeyDown | CtrlU | CtrlD | CtrlB | CtrlF

  /** The key string under which each entry is stored. */
  function KeyName(k: MoveKey): string {
    match k
    case K => "k"
    case KeyUp => "KEY_UP"
    case J => "j"
    case KeyDown => "KEY_DOWN"
    case CtrlU => "^U"
    case CtrlD => "^D"
    case CtrlB => "^B"
    case CtrlF => "^F"
  }

  /** `c in c_move`, and which entry `c` selects. */
  function MoveKeyOf(c: string): (r: Option<MoveKey>)
    ensures r.Some? ==> KeyName(r.value) == c
    ensures forall k :: KeyName(k) == c ==> r == Some(k)
  {
    if c == "k" then Some(K)
    else if c == "KEY_UP" then Some(KeyUp)
    else if c == "j" then Some(J)
    else if c == "KEY_DOWN" then Some(KeyDown)
    else if c == "^U" then Some(CtrlU)
    else if c == "^D" then Some(CtrlD)
    else if c == "^B" then Some(CtrlB)
    else if c == "^F" then Some(CtrlF)
    else None
  }

  /** The entries that move the cursor towards the first row. */
  predicate Upward(k: MoveKey) {
    k == K || k == KeyUp || k == CtrlU || k == CtrlB
  }

  /** The second component: where the move takes the cursor.  The column never changes. */
  function Transform(k: MoveKey, p: Pos, b: Bounds): (q: Pos)
    ensures q.x == p.x
    ensures InBounds(p.y, b) && Upward(k) ==> q.y <= p.y
    ensures InBounds(p.y, b) && !Upward(k) ==> q.y >= p.y
  {
    match k
    case K | KeyUp => Pos(p.x, p.y - 1)
    case J | KeyDown => Pos(p.x, p.y + 1)
    case CtrlU => Pos(p.x, p.y - 10)
    case CtrlD => Pos(p.x, p.y + 10)
    case CtrlB => Pos(p.x, b.minY)
    case CtrlF => Pos(p.x, b.maxY)
  }

  /**
   * The first component: may the move be made from `p`?  Every guard allows
   * its move exactly when the transform goes strictly in the entry's
   * direction and stops at or before the bound on that side.
   */
  function Guard(k: MoveKey, p: Pos, b: Bounds): (ok: bool)
    ensures Upward(k) ==> (ok <==> b.minY <= Transform(k, p, b).y < p.y)
    ensures !Upward(k) ==> (ok <==> p.y < Transform(k, p, b).y <= b.maxY)
  {
    match k
    case K | KeyUp => p.y > b.minY
    case J | KeyDown => p.y < b.maxY
    case CtrlU => p.y >= b.minY + 10
    case CtrlD => p.y <= b.maxY - 10
    case CtrlB => p.y > b.minY
    case CtrlF => p.y < b.maxY
  }

  /** The third component, which the key loop never invokes: it keeps the column and lands between the bounds. */
  function Clamp(k: MoveKey, p: Pos, b: Bounds): (q: Pos)
    ensures q.x == p.x
    ensures InBounds(p.y, b) ==> InBounds(q.y, b)
  {
    match k
    case K | KeyUp | J | KeyDown | CtrlB | CtrlF => p
    case CtrlU => Pos(p.x, b.minY)
    case CtrlD => Pos(p.x, b.maxY)
  }

  /** A row between the bounds, both included. */
  predicate InBounds(y: int, b: Bounds) {
    b.minY <= y <= b.maxY
  }

  /**
   * One move as the key loop performs it.  The column never changes; a
   * cursor between the bounds stays between them; a cursor below or at the
   * top bound stays there or above it; and a cursor left beyond the last row
   * (the node list shrank) is never moved further down.
   */
  function Move(k: MoveKey, p: Pos, b: Bounds): (q: Pos)
    ensures q.x == p.x
    ensures InBounds(p.y, b) ==> InBounds(q.y, b)
    ensures p.y >= b.minY ==> q.y >= b.minY
    ensures p.y > b.maxY ==> q.y <= p.y
  {
    if Guard(k, p, b) then Transform(k, p, b) else p
  }

  /** The moves of a whole key sequence, one after another, under fixed bounds. */
  function MoveAll(keys: seq<MoveKey>, p: Pos, b: Bounds): Pos
    decreases |keys|
  {
    if keys == [] then p else MoveAll(keys[1..], Move(keys[0], p, b), b)
  }

  /** However many move keys are pressed, the cursor stays in its column and between the bounds. */
  lemma {:induction false} MoveAllInBounds(keys: seq<MoveKey>, p: Pos, b: Bounds)
    requires InBounds(p.y, b)
    ensures MoveAll(keys, p, b).x == p.x
    ensures InBounds(MoveAll(keys, p, b).y, b)
    decreases |keys|
  {
    if keys != [] {
      MoveAllInBounds(keys[1..], Move(keys[0], p, b), b);
    }
  }

  /** "k" and "KEY_UP", and "j" and "KEY_DOWN", are the same entry under two names. */
  lemma SynonymEntries(p: Pos, b: Bounds)
    ensures Guard(K, p, b) == Guard(KeyUp, p, b) && Transform(K, p, b) == Transform(KeyUp, p, b)
    ensures Clamp(K, p, b) == Clamp(KeyUp, p, b)
    ensures Guard(J, p, b) == Guard(KeyDown, p, b) && Transform(J, p, b) == Transform(KeyDown, p, b)
    ensures Clamp(J, p, b) == Clamp(KeyDown, p, b)
  {
  }

  /**
   * The size of each move: up and down go exactly one row, ^U and ^D exactly
   * ten, ^B and ^F straight to the first and last row; each happens exactly
   * when its guard lets it, and otherwise the cursor does not move.
   */
  lemma MoveDistances(p: Pos, b: Bounds)
    ensures Move(K, p, b).y == if p.y > b.minY then p.y - 1 else p.y
    ensures Move(J, p, b).y == if p.y < b.maxY then p.y + 1 else p.y
    ensures Move(CtrlU, p, b).y == if p.y - 10 >= b.minY then p.y - 10 else p.y
    ensures Move(CtrlD, p, b).y == if p.y + 10 <= b.maxY then p.y + 10 else p.y
    ensures Move(CtrlB, p, b).y == if p.y > b.minY then b.minY else p.y
    ensures Move(CtrlF, p, b).y == if p.y < b.maxY then b.maxY else p.y
  {
  }

  /** On a cursor between the bounds, ^B always ends on the first row and ^F on the last. */
  lemma JumpsReachBounds(p: Pos, b: Bounds)
    requires InBounds(p.y, b)
    ensures Move(CtrlB, p, b) == Pos(p.x, b.minY)
    ensures Move(CtrlF, p, b) == Pos(p.x, b.maxY)
  {
  }

  /**
   * The clamp entries are dead: with fewer than ten rows above the cursor,
   * ^U does nothing, although its clamp entry would have put the cursor on
   * the first row; symmetrically for ^D and the last row.
   */
  lemma PageClampUnused(p: Pos, b: Bounds)
    requires b.minY < p.y < b.minY + 10
    ensures Move(CtrlU, p, b) == p
    ensures Clamp(CtrlU, p, b) == Pos(p.x, b.minY) != p
  {
  }

  /** The ^D half of the same gap. */
  lemma PageDownClampUnused(p: Pos, b: Bounds)
    requires b.maxY - 10 < p.y < b.maxY
    ensures Move(CtrlD, p, b) == p
    ensures Clamp(CtrlD, p, b) == Pos(p.x, b.maxY) != p
  {
  }

  /**
   * Had the loop used the whole triple (guard, then transform, else clamp),
   * a page move would always end exactly ten rows away or on the bound, and
   * every move would keep the cursor between the bounds.
   */
  function TableMove(k: MoveKey, p: Pos, b: Bounds): (q: Pos)
    ensures q.x == p.x
    ensures InBounds(p.y, b) ==> InBounds(q.y, b)
    ensures InBounds(p.y, b) && k == CtrlU ==> q.y == if p.y - 10 >= b.minY then p.y - 10 else b.minY
    ensures InBounds(p.y, b) && k == CtrlD ==> q.y == if p.y + 10 <= b.maxY then p.y + 10 else b.maxY
  {
    if Guard(k, p, b) then Transform(k, p, b) else Clamp(k, p, b)
  }

  /** The two readings of the table differ only on ^U and ^D, and only where the page step is cut short. */
  lemma MoveAgreesWithTableElsewhere(k: MoveKey, p: Pos, b: Bounds)
    requires k != CtrlU && k != CtrlD
    ensures Move(k, p, b) == TableMove(k, p, b)
  {
  }
}

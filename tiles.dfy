/** The minesweeper tile: a content (a mine, or an empty cell carrying the
    number of neighbouring mines) nested inside visibility and flag
    wrappers, exactly as the game's tile enum nests them. */
module MinesweeperTiles {
  import opened Common

  datatype Tile =
    | Invisible(inner: Tile)
    | Visible(inner: Tile)
    | Flag(inner: Tile)
    | Empty(surrounding: int)
    | Mine

  /** The content a tile carries, with every wrapper stripped. */
  function Core(t: Tile): (c: Tile)
    ensures c.Empty? || c.Mine?
  {
    match t
    case Invisible(inner) => Core(inner)
    case Visible(inner) => Core(inner)
    case Flag(inner) => Core(inner)
    case Empty(_) => t
    case Mine => t
  }

  /** A tile as the board holds it: a hidden mine, or an empty cell that is
      hidden or revealed. (A revealed mine and a flag never occur.) */
  predicate Placed(t: Tile) {
    t == Invisible(Mine) || ((t.Invisible? || t.Visible?) && t.inner.Empty?)
  }

  /** A hidden empty cell: the only kind of tile a reveal changes. */
  predicate HiddenEmpty(t: Tile) {
    t.Invisible? && t.inner.Empty?
  }

  /** Every fresh cell starts out hidden and empty with no neighbouring mines. */
  function StarterTile(): (t: Tile)
    ensures HiddenEmpty(t) && Placed(t)
    ensures !IsMine(t) && IsEmpty(t) && GetEmpty(t) == Some(0)
  {
    Invisible(Empty(0))
  }

  /** A tile reads as a mine only when its content is a mine and no
      Visible wrapper sits above it. */
  function IsMine(t: Tile): (r: bool)
    ensures r ==> Core(t) == Mine
    ensures t.Visible? || t.Empty? ==> !r
    ensures t.Mine? ==> r
  {
    match t
    case Invisible(inner) => IsMine(inner)
    case Visible(_) => false
    case Flag(inner) => IsMine(inner)
    case Empty(_) => false
    case Mine => true
  }

  /** Only the visibility wrappers have a visibility; the source treats
      asking a bare content or a flag as unreachable. */
  function IsVisible(t: Tile): (r: bool)
    requires t.Invisible? || t.Visible?
    ensures r ==> !IsMine(t)
    ensures !r ==> IsMine(t) == IsMine(t.inner)
  {
    match t
    case Invisible(_) => false
    case Visible(_) => true
  }

  /** A tile is empty exactly when its content is an empty cell. */
  function IsEmpty(t: Tile): (r: bool)
    ensures r <==> Core(t).Empty?
  {
    match t
    case Invisible(inner) => IsEmpty(inner)
    case Visible(inner) => IsEmpty(inner)
    case Flag(inner) => IsEmpty(inner)
    case Empty(_) => true
    case Mine => false
  }

  /** The neighbour count of an empty content, seen through every wrapper;
      `None` exactly for a mine. */
  function GetEmpty(t: Tile): (r: Option<int>)
    ensures r.None? <==> Core(t) == Mine
    ensures r.Some? ==> Core(t) == Empty(r.value)
    ensures r.Some? <==> IsEmpty(t)
  {
    match t
    case Invisible(inner) => GetEmpty(inner)
    case Visible(inner) => GetEmpty(inner)
    case Flag(inner) => GetEmpty(inner)
    case Empty(surrounding) => Some(surrounding)
    case Mine => None
  }

  /** Unwrapping one layer keeps the content; unwrapping a bare content
      is unreachable in the source. */
  function GetInner(t: Tile): (r: Tile)
    requires !t.Empty? && !t.Mine?
    ensures Core(r) == Core(t)
  {
    match t
    case Invisible(inner) => inner
    case Visible(inner) => inner
    case Flag(inner) => inner
  }

  /** On a placed tile the queries agree with the two orthogonal axes:
      a mine is exactly a hidden mine and everything else is empty. */
  lemma PlacedQueries(t: Tile)
    requires Placed(t)
    ensures IsMine(t) <==> t == Invisible(Mine)
    ensures IsEmpty(t) <==> !IsMine(t)
    ensures !HiddenEmpty(t) <==> (IsVisible(t) || IsMine(t))
  {
  }
}

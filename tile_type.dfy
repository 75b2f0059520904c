/**
 * The eleven tile classifications of module/tile_type.rb. The source uses
 * bare integers 0..10; the model uses a closed datatype and keeps the
 * integer codes as a bijection.
 */
module TileTypes {
  import opened Wrappers

  datatype TileState =
    | Empty       // 0
    | Floor       // 1
    | Wall        // 2
    | Corner      // 3
    | Hall        // 4
    | Padding     // 5
    | Water       // 6
    | StartPoint  // 7
    | EndPoint    // 8
    | Explored    // 9
    | Path        // 10

  /** Number of tile states (the source's NUM_TILE_STATES for this enumeration). */
  const NumTileStates: nat := 11

  /** The integer constant the source uses for a state. */
  function Code(s: TileState): (c: nat)
    ensures c < NumTileStates
  {
    match s
    case Empty => 0
    case Floor => 1
    case Wall => 2
    case Corner => 3
    case Hall => 4
    case Padding => 5
    case Water => 6
    case StartPoint => 7
    case EndPoint => 8
    case Explored => 9
    case Path => 10
  }

  /** The state a stored integer denotes, if any. */
  function FromCode(c: int): (r: Option<TileState>)
    ensures r.Some? <==> 0 <= c < NumTileStates
    ensures r.Some? ==> Code(r.value) == c
  {
    if c == 0 then Some(Empty)
    else if c == 1 then Some(Floor)
    else if c == 2 then Some(Wall)
    else if c == 3 then Some(Corner)
    else if c == 4 then Some(Hall)
    else if c == 5 then Some(Padding)
    else if c == 6 then Some(Water)
    else if c == 7 then Some(StartPoint)
    else if c == 8 then Some(EndPoint)
    else if c == 9 then Some(Explored)
    else if c == 10 then Some(Path)
    else None
  }

  /** Decoding the code of a state gives the state back, so the codes are distinct. */
  lemma CodeRoundTrip(s: TileState)
    ensures FromCode(Code(s)) == Some(s)
  {
  }

  lemma CodeInjective(s: TileState, t: TileState)
    ensures Code(s) == Code(t) <==> s == t
  {
    CodeRoundTrip(s);
    CodeRoundTrip(t);
  }
}

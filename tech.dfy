/** The two playback backends ("techs") the levels menu talks to, and how
    each one enumerates its levels and takes a level choice. The Flash tech
    reads and writes properties of its plugin element; the Html5 tech reads
    and writes the level list and the current level of its adaptive
    streaming engine, where -1 means automatic selection. */
module Tech {
  import opened Labels

  datatype Backend = Flash | Html5

  /** The level the Html5 tech stores for a requested level: a falsy
      request (absent or 0) means automatic selection, -1. */
  function Html5Level(level: Option<int>): (r: int)
    ensures r != 0
    ensures r == -1 <==> !IsTruthy(level) || level == Some(-1)
    ensures IsTruthy(level) ==> r == level.value
  {
    if !IsTruthy(level) then -1 else level.value
  }

  /** Normalising twice is normalising once: a stored level passed back in
      is stored unchanged. */
  lemma Html5LevelIdempotent(level: Option<int>)
    ensures Html5Level(Some(Html5Level(level))) == Html5Level(level)
  {
  }

  /** The Html5 tech receives menu positions: position 0 ("Auto") is stored
      as -1, and every other position is stored as itself. */
  lemma Html5LevelOfPosition(k: nat)
    ensures Html5Level(Some(k)) == if k == 0 then -1 else k
  {
  }

  /** The Flash tech's level list: the plugin element's `levels` property,
      or an empty list when that property is absent. */
  function FlashLevels(property: Option<seq<Level>>): (r: seq<Level>)
    ensures property.None? ==> r == []
    ensures property.Some? ==> r == property.value
  {
    if property.Some? then property.value else []
  }

  /** A playback backend as the levels menu sees it. */
  class Tech {
    const kind: Backend
    /** Flash: the `levels` property of the plugin element, when set. */
    var levelsProperty: Option<seq<Level>>
    /** Html5: the adaptive streaming engine's level list. */
    var engineLevels: seq<Level>
    /** The last level handed to the backend: the Flash `level` property or
        the engine's current level. */
    var level: Option<int>

    constructor (kind: Backend, levelsProperty: Option<seq<Level>>, engineLevels: seq<Level>)
      ensures this.kind == kind && this.levelsProperty == levelsProperty
      ensures this.engineLevels == engineLevels && level == None
    {
      this.kind := kind;
      this.levelsProperty := levelsProperty;
      this.engineLevels := engineLevels;
      level := None;
    }

    /** `getLevels`, dispatched on the backend kind. */
    function GetLevels(): (r: seq<Level>)
      reads this
      ensures kind == Html5 ==> r == engineLevels
      ensures kind == Flash ==> r == FlashLevels(levelsProperty)
    {
      match kind
      case Flash => FlashLevels(levelsProperty)
      case Html5 => engineLevels
    }

    /** `setLevel`: Flash passes the level through unchanged; Html5 stores
        -1 for a falsy level and the level itself otherwise. */
    method SetLevel(requested: Option<int>)
      modifies this`level
      ensures kind == Flash ==> level == requested
      ensures kind == Html5 ==> level == Some(Html5Level(requested))
      ensures kind == Html5 ==> level != Some(0)
    {
      match kind {
        case Flash =>
          level := requested;
        case Html5 =>
          level := Some(Html5Level(requested));
      }
    }
  }
}

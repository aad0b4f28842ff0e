/** The entity map: names to numbers and back. */
module EntityMaps {
  import opened Bilou

  /** The two tables are inverse to each other. */
  ghost predicate Inverse<S>(str2id: map<S, nat>, id2str: seq<S>)
  {
    && (forall s :: s in str2id ==> str2id[s] < |id2str| && id2str[str2id[s]] == s)
    && (forall i :: 0 <= i < |id2str| ==> id2str[i] in str2id && str2id[id2str[i]] == i)
  }

  class EntityMap<S(==)> {
    var str2id: map<S, nat>
    var id2str: seq<S>

    ghost predicate Valid()
      reads this
    {
      Inverse(str2id, id2str)
    }

    constructor ()
      ensures Valid() && id2str == [] && str2id == map[]
    {
      str2id, id2str := map[], [];
    }

    /** entity_map::parse: the number of a name, which is added if asked for. */
    method Parse(name: S, add: bool) returns (id: nat)
      requires Valid()
      modifies this
      ensures Valid()
      ensures old(name in str2id) ==> id == old(str2id[name]) && id2str == old(id2str)
      ensures old(name !in str2id) ==> if add then id == old(|id2str|) && id2str == old(id2str) + [name]
              else id == UNKNOWN && id2str == old(id2str)
    {
      if name !in str2id && add {
        str2id := str2id[name := |id2str|];
        id2str := id2str + [name];
      }
      id := if name in str2id then str2id[name] else UNKNOWN;
    }

    /** entity_map::name: beyond the last number it is the empty name. */
    function Name(id: nat, empty: S): (name: S)
      reads this
      ensures id < |id2str| && Valid() ==> name in str2id && str2id[name] == id
    {
      if id < |id2str| then id2str[id] else empty
    }
  }
}

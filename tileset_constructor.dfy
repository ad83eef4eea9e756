/** The attribute that marks an entity constructor as the one building a
    given tile id of the level's tile set. */
module TilesetConstructor {
  import opened Wrappers

  /** The attribute's record. `Id` has a private setter that only the
      constructor uses, so an immutable datatype value models it. */
  datatype Attribute = Attribute(Id: int)

  /** Tile id 0 stands for empty space, so no attribute may claim it: the
      constructor rejects every id below 1. The subset type makes that a fact
      about every attribute value the rest of the model can see. */
  type TilesetConstructorAttribute = a: Attribute | a.Id >= 1 witness Attribute(1)

  /** The ArgumentOutOfRangeException the constructor throws. */
  datatype AttributeError = IdOutOfRange

  /** The validating constructor: fails exactly for ids below 1 and
      otherwise stores the id unchanged. */
  function New(id: int): (r: Result<TilesetConstructorAttribute, AttributeError>)
    ensures r.Success? <==> id >= 1
    ensures r.Success? ==> r.value.Id == id
  {
    if id < 1 then Failure(IdOutOfRange) else Success(Attribute(id))
  }
}

/**
 * The parts of a loaded game data file (UndertaleData) the change detector
 * reads. Each entity is identified by its name (`Name.Content`); the rest of
 * its payload is only ever seen through the foreign collaborators.
 */
module Assets {
  import opened Base
  import opened Bytes

  /** One bytecode instruction of a code entry. */
  datatype Instruction = Instruction(address: nat, kind: int, type1: int, type2: int, typeInst: int, comparisonKind: int)

  /** UndertaleCode: a named block of bytecode. */
  datatype Code = Code(name: string, length: nat, instructions: seq<Instruction>)

  /**
   * The texture page item a sprite frame shows; `blob` is
   * `TexturePage.TextureData.TextureBlob`, None when that blob is null.
   */
  datatype PageItem = PageItem(name: string, blob: Option<seq<byte>>)

  /**
   * UndertaleSprite: a named sequence of frames; a frame is None when the
   * entry or its `Texture` is null (`Textures[i]?.Texture is null`).
   */
  datatype Sprite = Sprite(name: string, textures: seq<Option<PageItem>>)

  /** A game object, room or sound: only its name is compared. */
  datatype Asset = Asset(name: string)

  /** One loaded data file, with the collections the change detector reads. */
  datatype GameData = GameData(
    code: seq<Code>,
    gameObjects: seq<Asset>,
    rooms: seq<Asset>,
    sounds: seq<Asset>,
    sprites: seq<Sprite>,
    texturePageItems: seq<PageItem>)

  /** Which of the two data files a foreign call works on (its decompile context). */
  datatype Side = NameSide | RefSide

  function CodeName(c: Code): string { c.name }
  function SpriteName(s: Sprite): string { s.name }
  function AssetName(a: Asset): string { a.name }
  function PageItemName(t: PageItem): string { t.name }

  /** UndertaleCodeNameComparer.Equals: null equals nothing; otherwise the names are compared exactly. */
  predicate CodeNameEquals(x: Option<Code>, y: Option<Code>)
  {
    x.Some? && y.Some? && x.value.name == y.value.name
  }

  /** UndertaleCodeNameComparer.GetHashCode, given the hash of a string. */
  function CodeNameHash(x: Option<Code>, stringHash: string -> int): int
  {
    if x.None? then 0 else stringHash(x.value.name)
  }

  /** UndertaleSpriteNameComparer.Equals. */
  predicate SpriteNameEquals(x: Option<Sprite>, y: Option<Sprite>)
  {
    x.Some? && y.Some? && x.value.name == y.value.name
  }

  /** UndertaleSpriteNameComparer.GetHashCode, given the hash of a string. */
  function SpriteNameHash(x: Option<Sprite>, stringHash: string -> int): int
  {
    if x.None? then 0 else stringHash(x.value.name)
  }

  /**
   * Both comparers keep the contract their comments state (equal objects hash
   * alike), never equate null, and on non-null entries coincide with equality
   * of names, so a comparer-based classification is a classification by name.
   */
  lemma ComparersAreNameKeys(stringHash: string -> int, c: Option<Code>, d: Option<Code>, s: Option<Sprite>, t: Option<Sprite>)
    ensures CodeNameEquals(c, d) ==> CodeNameHash(c, stringHash) == CodeNameHash(d, stringHash)
    ensures SpriteNameEquals(s, t) ==> SpriteNameHash(s, stringHash) == SpriteNameHash(t, stringHash)
    ensures !CodeNameEquals(None, d) && !CodeNameEquals(c, None)
    ensures !SpriteNameEquals(None, t) && !SpriteNameEquals(s, None)
    ensures c.Some? && d.Some? ==> (CodeNameEquals(c, d) <==> CodeName(c.value) == CodeName(d.value))
    ensures s.Some? && t.Some? ==> (SpriteNameEquals(s, t) <==> SpriteName(s.value) == SpriteName(t.value))
  {
  }
}

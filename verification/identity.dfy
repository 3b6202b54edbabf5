/**
 * The identity-only kinds (game objects, rooms, sounds, texture page items):
 * their names are classified as strings and written as two list files.
 */
module IdentityDiff {
  import opened Assets
  import opened Classify
  import opened Output

  /** The added and removed name lists of one kind, exported as `added<kind>.txt` / `removed<kind>.txt`. */
  function DiffNames(kind: string, nameSide: seq<string>, refSide: seq<string>): seq<Write>
  {
    ExportDiffs(Except(nameSide, refSide, Identity), Except(refSide, nameSide, Identity), kind)
  }

  function DiffObjects(name: GameData, reference: GameData): seq<Write>
  {
    DiffNames("GameObjects", Keys(name.gameObjects, AssetName), Keys(reference.gameObjects, AssetName))
  }

  function DiffRooms(name: GameData, reference: GameData): seq<Write>
  {
    DiffNames("Rooms", Keys(name.rooms, AssetName), Keys(reference.rooms, AssetName))
  }

  function DiffSounds(name: GameData, reference: GameData): seq<Write>
  {
    DiffNames("Sounds", Keys(name.sounds, AssetName), Keys(reference.sounds, AssetName))
  }

  function DiffTexturePageItems(name: GameData, reference: GameData): seq<Write>
  {
    DiffNames("TexturePageItems", Keys(name.texturePageItems, PageItemName), Keys(reference.texturePageItems, PageItemName))
  }

  /**
   * The added list holds each name-side name absent from the reference side,
   * once, in name-side first-occurrence order; the removed list is the same
   * with the sides swapped. The two lists share no name.
   */
  lemma DiffNamesContents(kind: string, nameSide: seq<string>, refSide: seq<string>)
    ensures var w := DiffNames(kind, nameSide, refSide);
      && |w| == 2
      && w[0].WriteLines? && w[0].path == FilePath(OutputRoot, "added" + kind + ".txt")
      && w[1].WriteLines? && w[1].path == FilePath(OutputRoot, "removed" + kind + ".txt")
      && KeySet(w[0].lines, Identity) == KeySet(nameSide, Identity) - KeySet(refSide, Identity)
      && KeySet(w[1].lines, Identity) == KeySet(refSide, Identity) - KeySet(nameSide, Identity)
      && InFirstOccurrenceOrder(w[0].lines, nameSide, Identity)
      && InFirstOccurrenceOrder(w[1].lines, refSide, Identity)
      && DistinctKeys(w[0].lines, Identity) && DistinctKeys(w[1].lines, Identity)
  {
    ExceptSpec(nameSide, refSide, Identity);
    ExceptSpec(refSide, nameSide, Identity);
  }

  /**
   * The two list files of one kind: `added<kind>.txt` holds exactly the keys
   * of the name side missing from the reference side, `removed<kind>.txt`
   * the reverse.
   */
  ghost predicate ListsDifference(w: seq<Write>, kind: string, nameKeys: set<string>, refKeys: set<string>)
  {
    && |w| == 2
    && w[0].WriteLines? && w[0].path == FilePath(OutputRoot, "added" + kind + ".txt")
    && w[1].WriteLines? && w[1].path == FilePath(OutputRoot, "removed" + kind + ".txt")
    && KeySet(w[0].lines, Identity) == nameKeys - refKeys
    && KeySet(w[1].lines, Identity) == refKeys - nameKeys
  }

  lemma KindLists<T>(kind: string, nameSide: seq<T>, refSide: seq<T>, key: T -> string)
    ensures ListsDifference(DiffNames(kind, Keys(nameSide, key), Keys(refSide, key)), kind,
                            KeySet(nameSide, key), KeySet(refSide, key))
  {
    DiffNamesContents(kind, Keys(nameSide, key), Keys(refSide, key));
    KeySetOfKeys(nameSide, key);
    KeySetOfKeys(refSide, key);
  }

  /** DiffObjects lists the game objects only one side has. */
  lemma ObjectsLists(name: GameData, reference: GameData)
    ensures ListsDifference(DiffObjects(name, reference), "GameObjects",
                            KeySet(name.gameObjects, AssetName), KeySet(reference.gameObjects, AssetName))
  {
    KindLists("GameObjects", name.gameObjects, reference.gameObjects, AssetName);
  }

  /** DiffRooms lists the rooms only one side has. */
  lemma RoomsLists(name: GameData, reference: GameData)
    ensures ListsDifference(DiffRooms(name, reference), "Rooms",
                            KeySet(name.rooms, AssetName), KeySet(reference.rooms, AssetName))
  {
    KindLists("Rooms", name.rooms, reference.rooms, AssetName);
  }

  /** DiffSounds lists the sounds only one side has. */
  lemma SoundsLists(name: GameData, reference: GameData)
    ensures ListsDifference(DiffSounds(name, reference), "Sounds",
                            KeySet(name.sounds, AssetName), KeySet(reference.sounds, AssetName))
  {
    KindLists("Sounds", name.sounds, reference.sounds, AssetName);
  }

  /** DiffTexturePageItems lists the texture page items only one side has. */
  lemma TexturePageItemsLists(name: GameData, reference: GameData)
    ensures ListsDifference(DiffTexturePageItems(name, reference), "TexturePageItems",
                            KeySet(name.texturePageItems, PageItemName), KeySet(reference.texturePageItems, PageItemName))
  {
    KindLists("TexturePageItems", name.texturePageItems, reference.texturePageItems, PageItemName);
  }

  /** Swapping the two sides swaps the added and removed lists. */
  lemma DiffNamesMirror(kind: string, nameSide: seq<string>, refSide: seq<string>)
    ensures DiffNames(kind, nameSide, refSide)[0].lines == DiffNames(kind, refSide, nameSide)[1].lines
    ensures DiffNames(kind, nameSide, refSide)[1].lines == DiffNames(kind, refSide, nameSide)[0].lines
  {
  }

  /** Diffing a name list against itself writes two empty lists. */
  lemma DiffNamesSelf(kind: string, names: seq<string>)
    ensures DiffNames(kind, names, names)[0].lines == []
    ensures DiffNames(kind, names, names)[1].lines == []
  {
    ExceptSelfIsEmpty(names, Identity);
  }

  /** A snapshot diffed against itself reports nothing added or removed for any identity-only kind. */
  lemma IdentityKindsSelfDiff(s: GameData)
    ensures DiffObjects(s, s) == ExportDiffs([], [], "GameObjects")
    ensures DiffRooms(s, s) == ExportDiffs([], [], "Rooms")
    ensures DiffSounds(s, s) == ExportDiffs([], [], "Sounds")
    ensures DiffTexturePageItems(s, s) == ExportDiffs([], [], "TexturePageItems")
  {
    DiffNamesSelf("GameObjects", Keys(s.gameObjects, AssetName));
    DiffNamesSelf("Rooms", Keys(s.rooms, AssetName));
    DiffNamesSelf("Sounds", Keys(s.sounds, AssetName));
    DiffNamesSelf("TexturePageItems", Keys(s.texturePageItems, PageItemName));
  }

  /** For every identity-only kind, added(A, B) is removed(B, A) and the other way round. */
  lemma IdentityKindsMirror(a: GameData, b: GameData)
    ensures DiffObjects(a, b)[0].lines == DiffObjects(b, a)[1].lines
    ensures DiffObjects(a, b)[1].lines == DiffObjects(b, a)[0].lines
    ensures DiffRooms(a, b)[0].lines == DiffRooms(b, a)[1].lines
    ensures DiffRooms(a, b)[1].lines == DiffRooms(b, a)[0].lines
    ensures DiffSounds(a, b)[0].lines == DiffSounds(b, a)[1].lines
    ensures DiffSounds(a, b)[1].lines == DiffSounds(b, a)[0].lines
    ensures DiffTexturePageItems(a, b)[0].lines == DiffTexturePageItems(b, a)[1].lines
    ensures DiffTexturePageItems(a, b)[1].lines == DiffTexturePageItems(b, a)[0].lines
  {
  }
}

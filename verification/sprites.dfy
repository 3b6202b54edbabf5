/**
 * The sprite part of the diff (DiffUtils.AddedRemovedSprites, ModifiedSprites,
 * DiffSprites): which frames are exported as `<sprite>_<frame>.png`.
 */
module SpriteDiff {
  import opened Base
  import opened Bytes
  import opened Assets
  import opened Classify
  import opened Output

  /** `minCount`: the smaller of the two frame counts. */
  function MinCount(s: Sprite, r: Sprite): (m: nat)
    ensures m <= |s.textures| && m <= |r.textures|
    ensures m == |s.textures| || m == |r.textures|
  {
    if |s.textures| < |r.textures| then |s.textures| else |r.textures|
  }

  /**
   * The reference frames the comparison dereferences are present: below
   * `minCount`, wherever the name-side frame is present, so is the reference one.
   */
  predicate RefFramesPresent(s: Sprite, r: Sprite)
  {
    forall i :: 0 <= i < MinCount(s, r) && s.textures[i].Some? ==> r.textures[i].Some?
  }

  /**
   * Whether frame `i` of `s` is exported: for an added sprite (`partner` None)
   * every present frame; for a common sprite, a present frame below
   * `minCount` whose blob is not UnsafeCompare-equal to the reference one, and
   * every present frame from `minCount` on.
   */
  predicate Exported(s: Sprite, partner: Option<Sprite>, i: nat)
    requires i < |s.textures|
    requires partner.Some? ==> RefFramesPresent(s, partner.value)
  {
    && s.textures[i].Some?
    && match partner
       case None => true
       case Some(r) =>
         i >= MinCount(s, r)
         || !BlobsEqual(s.textures[i].value.blob, r.textures[i].value.blob)
  }

  function Export(dir: Dir, s: Sprite, i: nat): Write
    requires i < |s.textures| && s.textures[i].Some?
  {
    ExportPng(dir, s.name, i, s.textures[i].value)
  }

  /** The exports of the frames of `s` below `hi`, in frame order. */
  function FrameExports(dir: Dir, s: Sprite, partner: Option<Sprite>, hi: nat): seq<Write>
    requires hi <= |s.textures|
    requires partner.Some? ==> RefFramesPresent(s, partner.value)
    decreases hi
  {
    if hi == 0 then []
    else FrameExports(dir, s, partner, hi - 1) + (if Exported(s, partner, hi - 1) then [Export(dir, s, hi - 1)] else [])
  }

  /** The trace is made of image exports in strictly increasing frame order. */
  predicate FramesIncreasing(e: seq<Write>)
  {
    && (forall k :: 0 <= k < |e| ==> e[k].ExportPng?)
    && (forall k, l :: 0 <= k < l < |e| ==> e[k].frame < e[l].frame)
  }

  /**
   * The exports of a sprite are exactly its selected frames, each with its own
   * texture, in increasing frame order; frames at or past `hi` (in particular
   * frames only the reference sprite has) never appear.
   */
  lemma {:induction false} FrameExportsSpec(dir: Dir, s: Sprite, partner: Option<Sprite>, hi: nat)
    requires hi <= |s.textures|
    requires partner.Some? ==> RefFramesPresent(s, partner.value)
    ensures forall w :: w in FrameExports(dir, s, partner, hi) <==>
      exists i :: 0 <= i < hi && Exported(s, partner, i) && w == Export(dir, s, i)
    ensures FramesIncreasing(FrameExports(dir, s, partner, hi))
    ensures forall w :: w in FrameExports(dir, s, partner, hi) ==> w.ExportPng? && w.frame < hi
    decreases hi
  {
    if hi > 0 {
      FrameExportsSpec(dir, s, partner, hi - 1);
      var e := FrameExports(dir, s, partner, hi - 1);
      if Exported(s, partner, hi - 1) {
        var f := e + [Export(dir, s, hi - 1)];
        assert f == FrameExports(dir, s, partner, hi);
        forall k, l | 0 <= k < l < |f| ensures f[k].frame < f[l].frame {
          assert f[k] == e[k] && e[k] in e;
          if l < |e| {
            assert f[l] == e[l];
          }
        }
      }
    }
  }

  /** No two exports of one sprite write the same `<sprite>_<frame>.png`. */
  lemma FrameFilesDistinct(dir: Dir, s: Sprite, partner: Option<Sprite>, hi: nat)
    requires hi <= |s.textures|
    requires partner.Some? ==> RefFramesPresent(s, partner.value)
    ensures var e := FrameExports(dir, s, partner, hi);
      forall k, l :: 0 <= k < l < |e| ==> e[k].ExportPng? && e[l].ExportPng? && e[k].PngPath() != e[l].PngPath()
  {
    var e := FrameExports(dir, s, partner, hi);
    FrameExportsSpec(dir, s, partner, hi);
    forall k, l | 0 <= k < l < |e|
      ensures e[k].ExportPng? && e[l].ExportPng? && e[k].PngPath() != e[l].PngPath()
    {
      assert e[k] in e && e[l] in e;
      PngPathFrame(e[k], e[l]);
    }
  }

  // ---------------------------------------------------------------- added and removed

  /** The exports of every added sprite, in classification order. */
  function AddedSpriteExports(added: seq<Sprite>): seq<Write>
    decreases |added|
  {
    if added == [] then []
    else
      var s := added[|added| - 1];
      AddedSpriteExports(added[..|added| - 1]) + FrameExports(AddedSpritesDir, s, None, |s.textures|)
  }

  lemma AddedStep(added: seq<Sprite>, j: nat)
    requires j < |added|
    ensures AddedSpriteExports(added[..j + 1])
      == AddedSpriteExports(added[..j]) + FrameExports(AddedSpritesDir, added[j], None, |added[j].textures|)
  {
    assert added[..j + 1][..j] == added[..j];
  }

  function AddedSprites(name: GameData, reference: GameData): seq<Sprite>
  {
    Except(name.sprites, reference.sprites, SpriteName)
  }

  /**
   * The added sprites are one per name only the name side has, the first
   * sprite of that name, in name-side order; the removed names are the
   * reference-only names.
   */
  lemma AddedSpritesSpec(name: GameData, reference: GameData)
    ensures KeySet(AddedSprites(name, reference), SpriteName) == KeySet(name.sprites, SpriteName) - KeySet(reference.sprites, SpriteName)
    ensures DistinctKeys(AddedSprites(name, reference), SpriteName)
    ensures InFirstOccurrenceOrder(AddedSprites(name, reference), name.sprites, SpriteName)
    ensures KeySet(Except(reference.sprites, name.sprites, SpriteName), SpriteName)
            == KeySet(reference.sprites, SpriteName) - KeySet(name.sprites, SpriteName)
  {
    ExceptSpec(name.sprites, reference.sprites, SpriteName);
    ExceptSpec(reference.sprites, name.sprites, SpriteName);
  }

  /** What AddedRemovedSprites writes, in order. */
  function AddedRemovedSpritesWrites(name: GameData, reference: GameData): seq<Write>
  {
    var added := AddedSprites(name, reference);
    [CreateDirectory(AddedSpritesDir)]
    + AddedSpriteExports(added)
    + [WriteLines(FilePath(OutputRoot, "addedSprites.txt"), Keys(added, SpriteName)),
       WriteLines(FilePath(OutputRoot, "removedSprites.txt"),
                  Keys(Except(reference.sprites, name.sprites, SpriteName), SpriteName))]
  }

  /** The inner loop of AddedRemovedSprites: every present frame of an added sprite is exported. */
  method AddedSpriteFrames(sprite: Sprite) returns (exports: seq<Write>)
    ensures exports == FrameExports(AddedSpritesDir, sprite, None, |sprite.textures|)
  {
    exports := [];
    for i := 0 to |sprite.textures|
      invariant exports == FrameExports(AddedSpritesDir, sprite, None, i)
    {
      if sprite.textures[i].Some? {
        exports := exports + [ExportPng(AddedSpritesDir, sprite.name, i, sprite.textures[i].value)];
      }
    }
  }

  /**
   * AddedRemovedSprites: each added sprite's name goes to `addedSprites.txt`
   * and each of its present frames is exported to AddedSprites.
   */
  method AddedRemovedSprites(name: GameData, reference: GameData) returns (writes: seq<Write>)
    ensures writes == AddedRemovedSpritesWrites(name, reference)
  {
    writes := [CreateDirectory(AddedSpritesDir)];
    var added := Except(name.sprites, reference.sprites, SpriteName);
    var removed := Except(reference.sprites, name.sprites, SpriteName);
    var lines: seq<string> := [];
    for j := 0 to |added|
      invariant lines == Keys(added[..j], SpriteName)
      invariant writes == [CreateDirectory(AddedSpritesDir)] + AddedSpriteExports(added[..j])
    {
      var sprite := added[j];
      assert added[..j + 1] == added[..j] + [sprite];
      KeysSnoc(added[..j], sprite, SpriteName);
      AddedStep(added, j);
      lines := lines + [sprite.name];
      var exports := AddedSpriteFrames(sprite);
      writes := writes + exports;
    }
    assert added[..|added|] == added;
    writes := writes + [WriteLines(FilePath(OutputRoot, "addedSprites.txt"), lines),
                        WriteLines(FilePath(OutputRoot, "removedSprites.txt"), Keys(removed, SpriteName))];
  }

  // ---------------------------------------------------------------- modified

  function CommonSprites(name: GameData, reference: GameData): seq<Sprite>
  {
    Intersect(name.sprites, reference.sprites, SpriteName)
  }

  /** Every common sprite has a reference partner whose compared frames are present. */
  predicate PartnersPresent(cs: seq<Sprite>, reference: seq<Sprite>)
  {
    forall j :: 0 <= j < |cs| ==>
      cs[j].name in KeySet(reference, SpriteName)
      && RefFramesPresent(cs[j], First(reference, cs[j].name, SpriteName))
  }

  /** The exports of every common sprite, in classification order. */
  function ModifiedSpriteExports(reference: seq<Sprite>, cs: seq<Sprite>): seq<Write>
    requires PartnersPresent(cs, reference)
    decreases |cs|
  {
    if cs == [] then []
    else
      var s := cs[|cs| - 1];
      ModifiedSpriteExports(reference, cs[..|cs| - 1])
      + FrameExports(ModifiedSpritesDir, s, Some(First(reference, s.name, SpriteName)), |s.textures|)
  }

  /**
   * What the source demands of its inputs for ModifiedSprites not to throw:
   * for every common sprite, the frames of its first reference partner that
   * it compares against are present.
   */
  predicate ComparedFramesPresent(name: GameData, reference: GameData)
  {
    var cs := CommonSprites(name, reference);
    forall j :: 0 <= j < |cs| && cs[j].name in KeySet(reference.sprites, SpriteName) ==>
      RefFramesPresent(cs[j], First(reference.sprites, cs[j].name, SpriteName))
  }

  lemma CommonPartnersPresent(name: GameData, reference: GameData)
    requires ComparedFramesPresent(name, reference)
    ensures PartnersPresent(CommonSprites(name, reference), reference.sprites)
  {
    CommonHasPartner(name.sprites, reference.sprites, SpriteName);
  }

  /** What ModifiedSprites writes, in order. */
  function ModifiedSpritesWrites(name: GameData, reference: GameData): seq<Write>
    requires ComparedFramesPresent(name, reference)
  {
    CommonPartnersPresent(name, reference);
    [CreateDirectory(ModifiedSpritesDir)] + ModifiedSpriteExports(reference.sprites, CommonSprites(name, reference))
  }

  /**
   * The body of ModifiedSprites for one common sprite: export the present
   * frames below `minCount` whose blob UnsafeCompare finds different from the
   * reference frame's, then every present frame from `minCount` on.
   */
  method ModifiedSpriteFrames(sprite: Sprite, spriteRef: Sprite) returns (exports: seq<Write>)
    requires RefFramesPresent(sprite, spriteRef)
    ensures exports == FrameExports(ModifiedSpritesDir, sprite, Some(spriteRef), |sprite.textures|)
  {
    exports := [];
    var minCount := if |sprite.textures| < |spriteRef.textures| then |sprite.textures| else |spriteRef.textures|;
    for i := 0 to minCount
      invariant exports == FrameExports(ModifiedSpritesDir, sprite, Some(spriteRef), i)
    {
      if sprite.textures[i].Some? {
        var texture := sprite.textures[i].value;
        var same := CompareBlobs(texture.blob, spriteRef.textures[i].value.blob);
        if same {
          continue;
        }
        exports := exports + [ExportPng(ModifiedSpritesDir, sprite.name, i, texture)];
      }
    }
    for i := minCount to |sprite.textures|
      invariant exports == FrameExports(ModifiedSpritesDir, sprite, Some(spriteRef), i)
    {
      if sprite.textures[i].Some? {
        exports := exports + [ExportPng(ModifiedSpritesDir, sprite.name, i, sprite.textures[i].value)];
      }
    }
  }

  /**
   * ModifiedSprites: each common sprite is compared frame by frame with the
   * first reference sprite of its name.
   */
  method ModifiedSprites(name: GameData, reference: GameData) returns (writes: seq<Write>)
    requires ComparedFramesPresent(name, reference)
    ensures writes == ModifiedSpritesWrites(name, reference)
  {
    writes := [CreateDirectory(ModifiedSpritesDir)];
    var common := Intersect(name.sprites, reference.sprites, SpriteName);
    CommonPartnersPresent(name, reference);
    for j := 0 to |common|
      invariant writes == [CreateDirectory(ModifiedSpritesDir)] + ModifiedSpriteExports(reference.sprites, common[..j])
    {
      var sprite := common[j];
      assert common[..j + 1][..j] == common[..j];
      var spriteRef := First(reference.sprites, sprite.name, SpriteName);
      var exports := ModifiedSpriteFrames(sprite, spriteRef);
      writes := writes + exports;
    }
    assert common[..|common|] == common;
  }

  /** Frame `i` of common sprite `j` is exported, and `w` is that export. */
  predicate ExportedFrameOf(reference: seq<Sprite>, cs: seq<Sprite>, j: int, i: int, w: Write)
    requires PartnersPresent(cs, reference)
  {
    && 0 <= j < |cs| && 0 <= i < |cs[j].textures|
    && Exported(cs[j], Some(First(reference, cs[j].name, SpriteName)), i)
    && w == Export(ModifiedSpritesDir, cs[j], i)
  }

  /** Every prefix of a list of common sprites with partners has partners. */
  lemma PrefixPartners(reference: seq<Sprite>, cs: seq<Sprite>)
    requires cs != [] && PartnersPresent(cs, reference)
    ensures PartnersPresent(cs[..|cs| - 1], reference)
  {
    var prefix := cs[..|cs| - 1];
    assert forall k :: 0 <= k < |prefix| ==> prefix[k] == cs[k];
  }

  /** An earlier sprite's frame is selected in the prefix exactly when it is in the whole list. */
  lemma PrefixFrame(reference: seq<Sprite>, cs: seq<Sprite>, j: int, i: int, w: Write)
    requires cs != [] && PartnersPresent(cs, reference) && j < |cs| - 1
    ensures PartnersPresent(cs[..|cs| - 1], reference)
    ensures ExportedFrameOf(reference, cs[..|cs| - 1], j, i, w) <==> ExportedFrameOf(reference, cs, j, i, w)
  {
    var prefix := cs[..|cs| - 1];
    assert forall k :: 0 <= k < |prefix| ==> prefix[k] == cs[k];
  }

  /**
   * An image lands in ModifiedSprites exactly for a frame of a common sprite
   * that Exported selects against its reference partner (the first reference
   * sprite of that name), carrying the name-side texture.
   */
  lemma {:induction false} ModifiedSpriteExportsSpec(reference: seq<Sprite>, cs: seq<Sprite>)
    requires PartnersPresent(cs, reference)
    ensures forall w :: w in ModifiedSpriteExports(reference, cs) <==>
      exists j, i :: ExportedFrameOf(reference, cs, j, i, w)
    decreases |cs|
  {
    if cs != [] {
      var n := |cs| - 1;
      var prefix := cs[..n];
      PrefixPartners(reference, cs);
      ModifiedSpriteExportsSpec(reference, prefix);
      var s := cs[n];
      var partner := Some(First(reference, s.name, SpriteName));
      FrameExportsSpec(ModifiedSpritesDir, s, partner, |s.textures|);
      var rest := ModifiedSpriteExports(reference, prefix);
      var last := FrameExports(ModifiedSpritesDir, s, partner, |s.textures|);
      assert ModifiedSpriteExports(reference, cs) == rest + last;
      forall w | w in rest + last
        ensures exists j, i :: ExportedFrameOf(reference, cs, j, i, w)
      {
        if w in rest {
          var j, i :| ExportedFrameOf(reference, prefix, j, i, w);
          PrefixFrame(reference, cs, j, i, w);
        } else {
          var i :| 0 <= i < |s.textures| && Exported(s, partner, i) && w == Export(ModifiedSpritesDir, s, i);
          assert ExportedFrameOf(reference, cs, n, i, w);
        }
      }
      forall w | exists j, i :: ExportedFrameOf(reference, cs, j, i, w)
        ensures w in rest + last
      {
        var j, i :| ExportedFrameOf(reference, cs, j, i, w);
        if j < n {
          PrefixFrame(reference, cs, j, i, w);
        } else {
          assert w in last;
        }
      }
    }
  }

  /**
   * The frame-selection rule for a common sprite, stated per frame: below
   * `minCount` a present frame is exported iff its blob is not equal to the
   * reference blob (a null blob is never equal); from `minCount` on iff it is
   * present.
   */
  lemma ExportedFrameRule(s: Sprite, r: Sprite, i: nat)
    requires i < |s.textures| && RefFramesPresent(s, r)
    ensures i < MinCount(s, r) ==>
      (Exported(s, Some(r), i) <==>
        s.textures[i].Some? && !BlobsEqual(s.textures[i].value.blob, r.textures[i].value.blob))
    ensures i < MinCount(s, r) && s.textures[i].Some? && s.textures[i].value.blob.None? ==> Exported(s, Some(r), i)
    ensures i >= MinCount(s, r) ==> (Exported(s, Some(r), i) <==> s.textures[i].Some?)
    ensures Exported(s, None, i) <==> s.textures[i].Some?
  {
  }

  /** Frame `i` of `s` is present with a null blob, and `w` is its export to ModifiedSprites. */
  predicate NullBlobExport(s: Sprite, i: int, w: Write)
  {
    && 0 <= i < |s.textures| && s.textures[i].Some? && s.textures[i].value.blob.None?
    && w == Export(ModifiedSpritesDir, s, i)
  }

  /**
   * A sprite diffed against itself exports exactly its present frames whose
   * blob is null, since a null blob never compares equal; with no null blobs
   * it exports nothing.
   */
  lemma SelfDiffFrames(s: Sprite)
    requires RefFramesPresent(s, s)
    ensures forall w :: w in FrameExports(ModifiedSpritesDir, s, Some(s), |s.textures|) <==>
      exists i :: NullBlobExport(s, i, w)
    ensures (forall i :: 0 <= i < |s.textures| && s.textures[i].Some? ==> s.textures[i].value.blob.Some?)
      ==> FrameExports(ModifiedSpritesDir, s, Some(s), |s.textures|) == []
  {
    SelfExportsNullBlobs(s);
    NullBlobsSelfExported(s);
    var e := FrameExports(ModifiedSpritesDir, s, Some(s), |s.textures|);
    if e != [] {
      assert e[0] in e;
    }
  }

  lemma SelfExportsNullBlobs(s: Sprite)
    requires RefFramesPresent(s, s)
    ensures forall w :: w in FrameExports(ModifiedSpritesDir, s, Some(s), |s.textures|) ==>
      exists i :: NullBlobExport(s, i, w)
  {
    FrameExportsSpec(ModifiedSpritesDir, s, Some(s), |s.textures|);
    forall w | w in FrameExports(ModifiedSpritesDir, s, Some(s), |s.textures|)
      ensures exists i :: NullBlobExport(s, i, w)
    {
      var i :| 0 <= i < |s.textures| && Exported(s, Some(s), i) && w == Export(ModifiedSpritesDir, s, i);
      SelfExported(s, i);
      assert NullBlobExport(s, i, w);
    }
  }

  lemma NullBlobsSelfExported(s: Sprite)
    requires RefFramesPresent(s, s)
    ensures forall w :: (exists i :: NullBlobExport(s, i, w)) ==>
      w in FrameExports(ModifiedSpritesDir, s, Some(s), |s.textures|)
  {
    FrameExportsSpec(ModifiedSpritesDir, s, Some(s), |s.textures|);
    forall w | exists i :: NullBlobExport(s, i, w)
      ensures w in FrameExports(ModifiedSpritesDir, s, Some(s), |s.textures|)
    {
      var i :| NullBlobExport(s, i, w);
      SelfExported(s, i);
    }
  }

  /** Compared with itself, a frame is exported exactly when it is present with a null blob. */
  lemma SelfExported(s: Sprite, i: nat)
    requires i < |s.textures| && RefFramesPresent(s, s)
    ensures Exported(s, Some(s), i) <==> s.textures[i].Some? && s.textures[i].value.blob.None?
  {
    assert MinCount(s, s) == |s.textures|;
  }

  /** Frame `i` of added sprite `j` is present, and `w` is its export. */
  predicate AddedFrameOf(added: seq<Sprite>, j: int, i: int, w: Write)
  {
    && 0 <= j < |added| && 0 <= i < |added[j].textures|
    && added[j].textures[i].Some?
    && w == Export(AddedSpritesDir, added[j], i)
  }

  /**
   * An image lands in AddedSprites exactly for a present frame of an added
   * sprite, carrying that frame's texture.
   */
  lemma {:induction false} AddedSpriteExportsSpec(added: seq<Sprite>)
    ensures forall w :: w in AddedSpriteExports(added) <==> exists j, i :: AddedFrameOf(added, j, i, w)
    decreases |added|
  {
    if added != [] {
      var n := |added| - 1;
      var prefix := added[..n];
      AddedSpriteExportsSpec(prefix);
      var s := added[n];
      FrameExportsSpec(AddedSpritesDir, s, None, |s.textures|);
      var rest := AddedSpriteExports(prefix);
      var last := FrameExports(AddedSpritesDir, s, None, |s.textures|);
      assert AddedSpriteExports(added) == rest + last;
      forall w | w in rest + last
        ensures exists j, i :: AddedFrameOf(added, j, i, w)
      {
        if w in rest {
          var j, i :| AddedFrameOf(prefix, j, i, w);
          assert AddedFrameOf(added, j, i, w);
        } else {
          var i :| 0 <= i < |s.textures| && Exported(s, None, i) && w == Export(AddedSpritesDir, s, i);
          assert AddedFrameOf(added, n, i, w);
        }
      }
      forall w | exists j, i :: AddedFrameOf(added, j, i, w)
        ensures w in rest + last
      {
        var j, i :| AddedFrameOf(added, j, i, w);
        if j < n {
          assert AddedFrameOf(prefix, j, i, w);
        } else {
          assert Exported(s, None, i);
          assert w in last;
        }
      }
    }
  }

  /** Every present frame of the sprite has image data. */
  predicate BlobsPresent(s: Sprite)
  {
    forall i :: 0 <= i < |s.textures| && s.textures[i].Some? ==> s.textures[i].value.blob.Some?
  }

  lemma {:induction false} SelfModifiedSilent(reference: seq<Sprite>, cs: seq<Sprite>)
    requires PartnersPresent(cs, reference)
    requires forall j :: 0 <= j < |cs| ==> cs[j] == reference[FirstIndex(reference, cs[j].name, SpriteName)]
    requires forall j :: 0 <= j < |cs| ==> BlobsPresent(cs[j])
    ensures ModifiedSpriteExports(reference, cs) == []
    decreases |cs|
  {
    if cs != [] {
      var n := |cs| - 1;
      var prefix := cs[..n];
      assert forall j :: 0 <= j < n ==> prefix[j] == cs[j];
      SelfModifiedSilent(reference, prefix);
      var s := cs[n];
      assert First(reference, s.name, SpriteName) == s;
      SelfDiffFrames(s);
    }
  }

  /**
   * A snapshot diffed against itself adds, removes and exports no sprite, as
   * long as every present frame has image data.
   */
  lemma SpritesSelfDiff(s: GameData)
    requires ComparedFramesPresent(s, s)
    requires forall j :: 0 <= j < |s.sprites| ==> BlobsPresent(s.sprites[j])
    ensures AddedRemovedSpritesWrites(s, s) ==
      [CreateDirectory(AddedSpritesDir),
       WriteLines(FilePath(OutputRoot, "addedSprites.txt"), []),
       WriteLines(FilePath(OutputRoot, "removedSprites.txt"), [])]
    ensures ModifiedSpritesWrites(s, s) == [CreateDirectory(ModifiedSpritesDir)]
  {
    ExceptSelfIsEmpty(s.sprites, SpriteName);
    var cs := CommonSprites(s, s);
    CommonPartnersPresent(s, s);
    IntersectSpec(s.sprites, s.sprites, SpriteName);
    forall j | 0 <= j < |cs| ensures BlobsPresent(cs[j]) {
      var i := FirstIndex(s.sprites, cs[j].name, SpriteName);
      assert cs[j] == s.sprites[i];
    }
    SelfModifiedSilent(s.sprites, cs);
  }

  /** DiffSprites: the added/removed part, then the modified part. */
  method DiffSprites(name: GameData, reference: GameData) returns (writes: seq<Write>)
    requires ComparedFramesPresent(name, reference)
    ensures writes == AddedRemovedSpritesWrites(name, reference) + ModifiedSpritesWrites(name, reference)
  {
    var added := AddedRemovedSprites(name, reference);
    var modified := ModifiedSprites(name, reference);
    writes := added + modified;
  }
}

# ModShardDiff change detection, modelled in Dafny

ModShardDiff compares two loaded GameMaker data files: the *name* side (the
file being compared) and the *reference* side (the file it is compared to).
It writes into an output folder what was added, removed or modified:

- list files (`added<Kind>.txt`, `removed<Kind>.txt`);
- the decompiled text of added code (`AddedCodes/<name>.gml`);
- an HTML diff for each modified code entry (`ModifiedCodes/<name>.html`);
- PNG exports of sprite frames (`AddedSprites/` and `ModifiedSprites/<name>_<frame>.png`).

This project models the change-detection logic of `DiffUtils.cs`.

- **`Bytes`.** `UnsafeCompare`, the chunked byte-array equality used on serialized code and texture blobs. It is a method over two possibly-null arrays with the 8-, 4-, 2- and 1-byte steps, proved to decide "both present, same length, equal at every index".
- **`Assets`.** The entities (code, sprite, texture page item, named assets, the data file) and the two name comparers.
- **`Classify`.** LINQ `Except`, `Intersect` and `First` with a name key. `Except`/`Intersect` follow the .NET hash-set walk: distinct keys, first-occurrence order. The module proves their set-difference, order and partition facts, and that classifying by comparer is classifying by name string.
- **`Output`.** The output folder as an ordered trace of write events.
- **`IdentityDiff`.** `DiffObjects`, `DiffRooms`, `DiffSounds` and `DiffTexturePageItems`, as classification of name strings.
- **`CodeDiff`.** `CompareUndertaleCode`, `AddedRemovedCodes`, `ModifiedCodes` and `DiffCodes`.
  - The serializer, decompiler, disassembler and `diff_match_patch` are parameters (`Collaborators`). A foreign call that can throw returns a `Result` carrying the exception message.
  - `ModifiedCodes` is the imperative loop of the source. `strName`/`strRef` live across iterations, and the loop is proved equal to the fold `ModifiedCodesRun`. Soundness and completeness of the reports are proved about that fold.
- **`SpriteDiff`.** `AddedRemovedSprites`, `ModifiedSprites` and `DiffSprites`: which frames are exported, proved frame by frame against `Exported`.

Every operation returns the trace of writes it makes, in order. A state-changing loop is a `method` whose `ensures` ties that trace to a specification function.

Two behaviours of `ModifiedCodes` are modelled as written:

- **Skipping unchanged code.** Common code is skipped when its *serialized bytes* are equal (`DiffUtils.cs:78-88`, `143`), not by comparing instruction lists.
- **When decompile and disassemble both fail.** The entry is not skipped. The diff is computed on the `strName`/`strRef` texts left over from an earlier iteration, or on `""` (`DiffUtils.cs:133-134`, `164`). `CodeDiff.StaleTextsOnTotalFailure` states this.

## Model

| member | source | states |
|---|---|---|
| Assets.ComparersAreNameKeys | DiffUtils.cs:12-47 | both comparers never equate null, equal entries hash alike, and on present entries comparer equality is equality of `Name.Content` |
| Bytes.UnsafeCompare | DiffUtils.cs:51-77 | true iff both arrays are non-null, have the same length and agree at every index (equivalently, the blobs are equal) |
| Bytes.ChunksCoverLength | DiffUtils.cs:58-74 | the `len/8` eight-byte steps and the `len&4`, `len&2`, `len&1` tail steps advance the cursor by exactly `len` |
| Bytes.BlobsEqualLaws | DiffUtils.cs:53-75 | the relation UnsafeCompare decides is symmetric, reflexive on present blobs and false when either blob is null |
| Bytes.CompareBlobs | DiffUtils.cs:233 | UnsafeCompare on two texture blobs held as possibly-null arrays is true iff both blobs are present and equal |
| Base.Contains | DiffUtils.cs:151 | `Contains` holds iff the substring occurs at some position of the message |
| Base.NatToString | DiffUtils.cs:210 | the frame index in a file name is a non-empty string of decimal digits whose decimal value is the index |
| Output.PngPathFrame | DiffUtils.cs:210 | two exports of one sprite into one directory write the same `<sprite>_<frame>.png` iff they are of the same frame |
| Output.ExportDiffsFiles | DiffUtils.cs:89-93 | ExportDiffs writes the added names to `added<Kind>.txt` and the removed ones to `removed<Kind>.txt`; these are two different files, and no file of one kind is a file of another kind |
| Classify.FirstIndex | DiffUtils.cs:142 | the index returned holds the key, and no earlier entry does |
| Classify.First | DiffUtils.cs:226 | the entry `First(t => t.Name.Content == k)` returns has name `k` |
| Classify.ExceptWalkSpec | DiffUtils.cs:100-101 | the hash-set walk of `Except` keeps the keys not yet seen, each once, in first-occurrence order |
| Classify.IntersectWalkSpec | DiffUtils.cs:137 | the hash-set walk of `Intersect` keeps the keys still removable, each once, in first-occurrence order |
| Classify.ExceptSpec | DiffUtils.cs:100-101 | `a.Except(b)` has exactly the keys of `a` not in `b`, distinct, each entry the first of its key, in the order keys first occur in `a` |
| Classify.IntersectSpec | DiffUtils.cs:222 | `a.Intersect(b)` has exactly the keys in both, distinct, each entry the first of its key in `a`, in first-occurrence order |
| Classify.AddedAndCommonPartition | DiffUtils.cs:199-222 | added and common keys are disjoint and together are the name-side keys |
| Classify.CommonHasPartner | DiffUtils.cs:137-142 | every common entry has a reference entry of the same name, so `First` on the reference side is defined |
| Classify.ExceptSelfIsEmpty | DiffUtils.cs:178-179 | a sequence minus itself is empty |
| Classify.AddedIsMirroredRemoved | DiffUtils.cs:200 | the removed keys are the reference keys absent from the name side, disjoint from the added keys |
| Classify.ClassifyByComparerIsByName | DiffUtils.cs:100-101 | the names of `Except`/`Intersect` by comparer are `Except`/`Intersect` of the name strings |
| IdentityDiff.DiffNamesContents | DiffUtils.cs:178-180 | `added<Kind>.txt` lists exactly the name-side names absent from the reference side, each once, in name-side order, and `removed<Kind>.txt` the mirror |
| IdentityDiff.ObjectsLists | DiffUtils.cs:176-181 | `addedGameObjects.txt` holds exactly the object names only the name side has, `removedGameObjects.txt` those only the reference side has |
| IdentityDiff.RoomsLists | DiffUtils.cs:182-187 | `addedRooms.txt` holds exactly the room names only the name side has, `removedRooms.txt` those only the reference side has |
| IdentityDiff.SoundsLists | DiffUtils.cs:188-193 | `addedSounds.txt` holds exactly the sound names only the name side has, `removedSounds.txt` those only the reference side has |
| IdentityDiff.TexturePageItemsLists | DiffUtils.cs:254-259 | `addedTexturePageItems.txt` holds exactly the texture page item names only the name side has, `removedTexturePageItems.txt` those only the reference side has |
| IdentityDiff.DiffNamesMirror | DiffUtils.cs:256-257 | the added list of (A, B) is the removed list of (B, A) and vice versa |
| IdentityDiff.DiffNamesSelf | DiffUtils.cs:184-185 | a name list diffed against itself gives two empty lists |
| IdentityDiff.IdentityKindsSelfDiff | DiffUtils.cs:176-193 | a data file diffed against itself lists nothing added or removed for objects, rooms, sounds and texture page items |
| IdentityDiff.IdentityKindsMirror | DiffUtils.cs:176-193 | for each identity-only kind, added(A, B) is removed(B, A) |
| CodeDiff.CompareUndertaleCode | DiffUtils.cs:78-88 | true iff the two entries serialize to the same bytes |
| CodeDiff.AddedRemovedCodes | DiffUtils.cs:94-121 | the writes are: the AddedCodes directory, one `.gml` per added code that decompiles, then `addedCodes.txt` and `removedCodes.txt` |
| CodeDiff.GmlWritesSpec | DiffUtils.cs:105-118 | a `.gml` write is exactly the decompiled text of an added code whose decompilation succeeds |
| CodeDiff.AddedRemovedCodesLists | DiffUtils.cs:100-120 | `addedCodes.txt` holds every added name in `Except` order whether or not it decompiles, and `removedCodes.txt` the removed names; both equal the string-level classification of the names |
| CodeDiff.AddedCodesGml | DiffUtils.cs:104-116 | `<name>.gml` with text t exists for an added code iff decompiling it gives t |
| CodeDiff.DecompileOrDisassemble | DiffUtils.cs:144-163 | the try/catch block leaves exactly the texts `ComparableTexts` gives: decompiled texts, disassembly only after a non-nested-function failure, and the previous text wherever every call for that side failed |
| CodeDiff.CommonCodesSpec | DiffUtils.cs:137 | the codes `Intersect` yields are one per name both files share, the first name-side code of that name, in name-side order |
| CodeDiff.ModifiedCodes | DiffUtils.cs:122-170 | the loop, with `strName`/`strRef` carried across iterations, writes exactly the trace of the fold `ModifiedCodesRun` |
| CodeDiff.CommonCodesLoop | DiffUtils.cs:133-169 | the `foreach` over the common codes, from `strName = strRef = ""`, writes exactly the reports of the fold `ModifiedCodesRun` |
| CodeDiff.ModifiedCodesSound | DiffUtils.cs:140-169 | every write of the loop is the rendered diff of a common code whose bytes differ and whose diff is neither empty nor a single EQUAL span |
| CodeDiff.ModifiedCodesComplete | DiffUtils.cs:143-168 | for distinct names, `<name>.html` is written iff the serialized bytes differ and the diff shows a change |
| CodeDiff.ReportedIff | DiffUtils.cs:143-168 | for distinct names, the report of the j-th common code exists iff that iteration's bytes differ and its diff shows a change |
| CodeDiff.ReportContents | DiffUtils.cs:167-168 | for distinct names, every write to the j-th common code's `<name>.html` is the rendered diff of iteration j; no other iteration writes that file |
| CodeDiff.IdenticalBytesNeverReported | DiffUtils.cs:143 | a common code whose serialized bytes equal its partner's never gets a report |
| CodeDiff.ModifiedCodesSelf | DiffUtils.cs:137-169 | a data file diffed against itself produces no code report |
| CodeDiff.DisassemblyOnlyAfterOrdinaryFailure | DiffUtils.cs:144-163 | when both decompilations succeed or the failure message names a nested function, the disassembler's answers do not matter |
| CodeDiff.StaleTextsOnTotalFailure | DiffUtils.cs:133-164 | when the name-side code neither decompiles nor disassembles, the texts are the ones carried in (`""` at first) and are carried on unchanged |
| CodeDiff.HtmlPathNames | DiffUtils.cs:168 | two reports go to the same file only for codes with the same name |
| CodeDiff.RunWritesOwnPaths | DiffUtils.cs:168 | every file the loop writes is the report path of a code it visited |
| CodeDiff.DiffCodes | DiffUtils.cs:171-175 | the added/removed writes, then the modified writes |
| SpriteDiff.MinCount | DiffUtils.cs:227 | `minCount` is at most both frame counts and equal to one of them |
| SpriteDiff.FrameExportsSpec | DiffUtils.cs:206-212 | the exports of a sprite are exactly its selected frames, each with its own texture, in strictly increasing frame order, none at or past the bound |
| SpriteDiff.FrameFilesDistinct | DiffUtils.cs:206-212 | no two exports of one sprite write the same `<sprite>_<frame>.png` |
| SpriteDiff.AddedSpritesSpec | DiffUtils.cs:199-200 | the added sprites are one per name only the name side has, the first of that name, in name-side order; the removed names are exactly the reference-only names |
| SpriteDiff.AddedRemovedSprites | DiffUtils.cs:194-216 | the writes are: the AddedSprites directory, the exports of every added sprite, then `addedSprites.txt` and `removedSprites.txt` |
| SpriteDiff.AddedSpriteFrames | DiffUtils.cs:206-212 | the frame loop of an added sprite exports exactly its non-null frames, in order |
| SpriteDiff.AddedSpriteExportsSpec | DiffUtils.cs:203-213 | an image lands in AddedSprites exactly for a non-null frame of an added sprite |
| SpriteDiff.CommonPartnersPresent | DiffUtils.cs:222-233 | when the reference frames each common sprite is compared against are non-null, every common sprite has a reference partner (so `First` does not throw) with those frames non-null |
| SpriteDiff.ModifiedSpriteFrames | DiffUtils.cs:227-244 | the two frame loops for one common sprite export exactly `FrameExports` against its partner |
| SpriteDiff.ModifiedSprites | DiffUtils.cs:217-246 | the writes are: the ModifiedSprites directory, then the frame exports of every common sprite in `Intersect` order |
| SpriteDiff.ModifiedSpriteExportsSpec | DiffUtils.cs:222-245 | an image lands in ModifiedSprites exactly for a frame of a common sprite that `Exported` selects against its first reference partner |
| SpriteDiff.ExportedFrameRule | DiffUtils.cs:229-244 | below `minCount` a frame is exported iff it is non-null and its blob is not UnsafeCompare-equal (a null blob always differs); from `minCount` on iff it is non-null; for an added sprite iff it is non-null |
| SpriteDiff.SelfDiffFrames | DiffUtils.cs:229-236 | a sprite compared with itself exports exactly its frames with a null blob, and nothing when every frame has a blob |
| SpriteDiff.SpritesSelfDiff | DiffUtils.cs:194-246 | a data file diffed against itself (every frame with a blob) adds, removes and exports no sprite |
| SpriteDiff.DiffSprites | DiffUtils.cs:247-253 | the added/removed writes, then the modified writes |

## Left out

- **File-system and console I/O.**
  - Directories, files and exported images are events in a returned trace, not real files, and paths are a directory tag plus a file name.
  - Console output of a disassembly failure (`DiffUtils.cs:160`) is not modelled.
  - A `StreamWriter` list file is one event when it is disposed. The empty file created before the loop is not a separate event.
- **Foreign libraries.** These are function parameters with no behaviour of their own: SharpSerializer, the decompiler and disassembler, `diff_match_patch` (`diff_main`, `diff_prettyHtml`), `TextureWorker.ExportAsPNG` and the string hash in `GetHashCode`. A thrown exception is a `Result.Err` carrying its message.
- **Unsafe pointer reads.** The 8-, 4- and 2-byte reads as `long`/`int`/`short` are slice equalities, which is the same test whatever the byte order.
- **Null list entries and null names.** Entries of the code and sprite lists, and their `Name`, are never null in the model. The comparers' null cases are modelled on `Option` values in `Assets.ComparersAreNameKeys`.
- **Null texture data.** A null `TexturePage` or `TextureData` under a frame is not modelled. A frame is either null or has a blob, which may itself be null.
- **Reference-side null frames.** `DiffUtils.cs:233` dereferences the reference frame without a null check. `SpriteDiff.ModifiedSprites` therefore requires `ComparedFramesPresent` instead of modelling the exception.
- CodeDiff.ModifiedCodesComplete: the "iff" is stated for distinct names only, which `Intersect` guarantees. With repeated names a report file would be overwritten, and the trace keeps both writes.
- SpriteDiff.SpritesSelfDiff: stated for data files in which every present frame has a blob. A null blob never compares equal, so such a frame would be exported even against itself (`SpriteDiff.SelfDiffFrames`).
- **The instruction list of a code entry.** It is carried in `Assets.Code` but is only ever seen through the serializer.
- **Out of scope:** `Diff.cs` (asynchronous loading, logging setup, and a code-name `Except` that duplicates `Classify.Except`) and `Program.cs` (command-line parsing).

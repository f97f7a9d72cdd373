# Outfit reconciliation, outfit validity and bundle asset selection

A Dafny model of two parts of the Crew Boom character tools for Unity. Both
parts are editor-side.

- **The character inspector (`CharacterDefinitionEditor`).**
  - `ValidateOutfits` repairs a character's outfit data after its renderer list changed:
    - the character gets exactly four outfits (Spring, Summer, Autumn, Winter);
    - surplus outfits are destroyed from the top index down;
    - each outfit's `EnabledRenderers` and `MaterialContainers` arrays are sized to the renderer count;
    - for each assigned renderer, a container's `Materials` and `UseShaderForMaterial` arrays are sized to that renderer's shared-material count.
  - The validity rule from the outfit drawer decides whether an outfit may be built. It also raises a per-renderer "missing materials" flag.
- **The bundle builder (`CustomCharacterBundleBuilder`).** It refuses prefabs it cannot build. It names the bundle after the character. It lists the files of the prefab's folder that may go into an asset bundle.

## Modules

- `engine.dfy`, module `Engine`:
  - nullable references (`Option`), material references and renderers;
  - `System.Array.Resize` (`Resized`, `ArrayResize`);
  - the top-down release order of `DestroyImmediate` loops (`Surplus`, `ReleaseSurplusAndResize`).
- `outfit_spec.dfy`, module `OutfitSpec`:
  - what reconciliation and the validity rule compute, as functions on values;
  - the properties proved about those functions: consistency, fixed points, idempotence, growth and shrink behaviour, and validity and error flags.
- `outfit_editor.dfy`, module `OutfitEditor`:
  - the components `CharacterOutfitRenderer` and `CharacterOutfit` as classes over nullable arrays;
  - their reconciliation as methods proved against `OutfitSpec`.
- `character_editor.dfy`, module `CharacterEditor`:
  - the `CharacterDefinition` component and the inspector class;
  - `ValidateOutfits` and the validity pass as methods.
  - The inspector's ghost field `released` logs every component removed with `DestroyImmediate`, in order.
  - Its field `errorOutfits` is `_errorOutfits`.
- `bundle_builder.dfy`, module `BundleBuilder`:
  - `Path.GetExtension` and `Path.GetFileName`;
  - the folder path and the bundle name;
  - the extension filter, as a loop method and a reference function with its lemmas;
  - the early-reject guards of `BuildBundle`.

Two behaviours of the code differ from what a reader of the inspector might expect; the model follows the code:

- **Resized shader flags.** When `UseShaderForMaterial` is resized, the new entries are `false`. That is `Array.Resize`'s default; they are not `true`. Only an array created from null is filled with `true`.
- **Null renderers.** A null renderer makes its outfit invalid but leaves that renderer's error flag as it was. Reconciliation skips the renderer's container entirely.

## Model

All source paths are under `unityProject/Assets/Scripts/Editor/`.

| member | source | states |
|---|---|---|
| Engine.Resized | unityProject/Assets/Scripts/Editor/CharacterDefinitionEditor.cs:225 | `Array.Resize` to length n keeps the first min(old, n) entries and fills new slots with the element default |
| Engine.ResizedAt | unityProject/Assets/Scripts/Editor/CharacterDefinitionEditor.cs:244 | entry j of a resized array is the old entry j if there was one, otherwise the default |
| Engine.Surplus | unityProject/Assets/Scripts/Editor/CharacterDefinitionEditor.cs:221-224 | the entries at index keep and above, listed from the top index down, as the destroy loop visits them |
| Engine.SurplusStep | unityProject/Assets/Scripts/Editor/CharacterDefinitionEditor.cs:258-261 | one more iteration of the descending destroy loop appends the entry at the next lower index |
| Engine.ArrayResize | unityProject/Assets/Scripts/Editor/CharacterDefinitionEditor.cs:262 | the resized array holds `Resized` of the old contents; the same array when the length matches, a new one otherwise |
| Engine.ReleaseSurplusAndResize | unityProject/Assets/Scripts/Editor/CharacterDefinitionEditor.cs:255-263 | entries at index n and above are released top-down, then the array is resized to n |
| OutfitSpec.ReconcileMaterials | unityProject/Assets/Scripts/Editor/CharacterDefinitionEditor.cs:279-288 | `Materials` ends with the renderer's material count. A null array becomes the shared materials; a matching one is untouched; otherwise the prefix is kept and new slots are null |
| OutfitSpec.ReconcileShaderFlags | unityProject/Assets/Scripts/Editor/CharacterDefinitionEditor.cs:289-300 | `UseShaderForMaterial` ends with the material count. A null array becomes all true; a matching one is untouched; otherwise the prefix is kept and new entries are false |
| OutfitSpec.ReconcileContainer | unityProject/Assets/Scripts/Editor/CharacterDefinitionEditor.cs:274-300 | a container slot ends fitting its renderer: for a non-null renderer both arrays are set with its material count; for a null renderer the slot is left exactly as it was |
| OutfitSpec.ReconcileOutfit | unityProject/Assets/Scripts/Editor/CharacterDefinitionEditor.cs:237-300 | after reconciliation an outfit has one enabled flag and one non-null container per renderer; each container fits its non-null renderer |
| OutfitSpec.ReconcileCharacter | unityProject/Assets/Scripts/Editor/CharacterDefinitionEditor.cs:212-303 | after reconciliation, from any start (a null array, missing or null outfits, too many outfits), a character has exactly four non-null outfits, each fitting the renderer list |
| OutfitSpec.ContainerFixedPoint | unityProject/Assets/Scripts/Editor/CharacterDefinitionEditor.cs:281-299 | a container that already fits its renderer is unchanged |
| OutfitSpec.OutfitFixedPoint | unityProject/Assets/Scripts/Editor/CharacterDefinitionEditor.cs:238-300 | an outfit that already fits the renderer list is unchanged |
| OutfitSpec.CharacterFixedPoint | unityProject/Assets/Scripts/Editor/CharacterDefinitionEditor.cs:212-303 | a character that already fits the renderer list is unchanged |
| OutfitSpec.ReconcileIdempotent | unityProject/Assets/Scripts/Editor/CharacterDefinitionEditor.cs:212-303 | a second reconciliation against the same renderer list changes nothing |
| OutfitSpec.ReconcileEnabledRenderers | unityProject/Assets/Scripts/Editor/CharacterDefinitionEditor.cs:238-245 | `EnabledRenderers` has one flag per renderer: the old flag where there was one, false otherwise |
| OutfitSpec.NullRendererSlotUntouched | unityProject/Assets/Scripts/Editor/CharacterDefinitionEditor.cs:274-278 | the container of a null renderer keeps its data; a container created for it keeps null arrays |
| OutfitSpec.NewContainerSeeded | unityProject/Assets/Scripts/Editor/CharacterDefinitionEditor.cs:264-296 | a new container for a non-null renderer gets the renderer's shared materials and all-true shader flags |
| OutfitSpec.GrowthPreservesData | unityProject/Assets/Scripts/Editor/CharacterDefinitionEditor.cs:238-300 | adding a renderer to a fitting outfit keeps all its data, adds a false flag, and adds a new container reconciled against the added renderer |
| OutfitSpec.ShrinkKeepsPrefix | unityProject/Assets/Scripts/Editor/CharacterDefinitionEditor.cs:242-263 | cutting the renderer list to its first j entries cuts a fitting outfit's flags and containers to their first j entries |
| OutfitSpec.OutfitValid | unityProject/Assets/Scripts/Editor/CharacterDefinitionEditor.cs:641-708 | an outfit is valid exactly when no renderer is null and no renderer's error flag (enabled, with an unset material slot) is raised |
| OutfitSpec.ErrorRow | unityProject/Assets/Scripts/Editor/CharacterDefinitionEditor.cs:682-708 | the error row has one flag per renderer |
| OutfitSpec.ValidIffNoNullRendererAndNoFlag | unityProject/Assets/Scripts/Editor/CharacterDefinitionEditor.cs:641-708 | an outfit is valid exactly when no renderer is null and no error flag is raised |
| OutfitSpec.NullRendererInvalidates | unityProject/Assets/Scripts/Editor/CharacterDefinitionEditor.cs:643-648 | a null renderer makes the outfit invalid and leaves its error flag as it was |
| OutfitSpec.DisabledRendererNeverInvalidates | unityProject/Assets/Scripts/Editor/CharacterDefinitionEditor.cs:703-707 | changing the container of a disabled renderer never changes the outfit's validity |
| OutfitEditor.CharacterOutfitRenderer.constructor | unityProject/Assets/Scripts/Editor/CharacterDefinitionEditor.cs:268 | a container added as a component has both arrays null |
| OutfitEditor.CharacterOutfitRenderer.Reconcile | unityProject/Assets/Scripts/Editor/CharacterDefinitionEditor.cs:279-300 | the container's data becomes `ReconcileContainer` of its old data. An array is kept when its length matches, and replaced by a new one otherwise |
| OutfitEditor.CharacterOutfit.constructor | unityProject/Assets/Scripts/Editor/CharacterDefinitionEditor.cs:231 | an outfit added as a component has both arrays null and owns only itself |
| OutfitEditor.CharacterOutfit.ResizeEnabled | unityProject/Assets/Scripts/Editor/CharacterDefinitionEditor.cs:238-245 | `EnabledRenderers` holds `Resized` of its old flags (or of nothing) to the renderer count, default false |
| OutfitEditor.CharacterOutfit.ResizeContainers | unityProject/Assets/Scripts/Editor/CharacterDefinitionEditor.cs:251-263 | `MaterialContainers` holds `Resized` of its old slots to the renderer count; the surplus containers are released top-down |
| OutfitEditor.CharacterOutfit.FillContainers | unityProject/Assets/Scripts/Editor/CharacterDefinitionEditor.cs:264-270 | every null container slot gets a new, empty container; non-null slots keep their object |
| OutfitEditor.CharacterOutfit.ReconcileSlot | unityProject/Assets/Scripts/Editor/CharacterDefinitionEditor.cs:279-300 | the container in slot k is reconciled against its renderer; every other slot keeps its data |
| OutfitEditor.CharacterOutfit.ReconcileContainers | unityProject/Assets/Scripts/Editor/CharacterDefinitionEditor.cs:264-301 | every slot holds a non-null container whose data is its start data reconciled against its renderer |
| OutfitEditor.CharacterOutfit.ResizeArrays | unityProject/Assets/Scripts/Editor/CharacterDefinitionEditor.cs:237-263 | both arrays get the renderer count; each keeps its leading entries and object when the length already matches; the released containers are the surplus of the old container array, top index first |
| OutfitEditor.CharacterOutfit.Reconcile | unityProject/Assets/Scripts/Editor/CharacterDefinitionEditor.cs:237-301 | the outfit's data becomes `ReconcileOutfit` of its old data; the released containers are the surplus of its old container array; surviving containers are the same objects |
| CharacterEditor.CharacterDefinition.NothingToReleaseWhenConsistent | unityProject/Assets/Scripts/Editor/CharacterDefinitionEditor.cs:218-263 | a character with four outfits that already fit has no surplus outfits and no surplus containers, so a repeated ValidateOutfits destroys nothing |
| CharacterEditor.NothingReleasedFromShortSlots | unityProject/Assets/Scripts/Editor/CharacterDefinitionEditor.cs:255-261 | container arrays no longer than the renderer list release nothing |
| CharacterEditor.CharacterDefinitionEditor.constructor | unityProject/Assets/Scripts/Editor/CharacterDefinitionEditor.cs:166 | before the first ValidateOutfits there are four unallocated error rows and nothing has been released |
| CharacterEditor.CharacterDefinitionEditor.ResizeOutfits | unityProject/Assets/Scripts/Editor/CharacterDefinitionEditor.cs:214-226 | `Outfits` holds `Resized` of its old slots to four; surplus outfits are released top-down; the array is kept when it had four slots |
| CharacterEditor.CharacterDefinitionEditor.FillOutfits | unityProject/Assets/Scripts/Editor/CharacterDefinitionEditor.cs:227-233 | every null outfit slot gets a new, empty outfit; non-null slots keep their object; no outfit sits in two slots |
| CharacterEditor.CharacterDefinitionEditor.FillTargetOutfits | unityProject/Assets/Scripts/Editor/CharacterDefinitionEditor.cs:227-233 | on the resized array, every slot that held an outfit keeps that object with its data; every empty slot gets a new, empty outfit; the four outfits own disjoint objects |
| CharacterEditor.CharacterDefinitionEditor.PrepareOutfits | unityProject/Assets/Scripts/Editor/CharacterDefinitionEditor.cs:214-233 | four non-null, separately owned outfits; slots 0-3 keep their outfit object with its data, empty slots get new empty outfits; the surplus outfits are released; the array is kept when it had four slots |
| CharacterEditor.CharacterDefinitionEditor.ReconcileAt | unityProject/Assets/Scripts/Editor/CharacterDefinitionEditor.cs:236-301 | one outfit is reconciled and its error row reset to all false; the other outfits keep their data |
| CharacterEditor.CharacterDefinitionEditor.ReconcileOutfits | unityProject/Assets/Scripts/Editor/CharacterDefinitionEditor.cs:235-301 | each of the four outfits is reconciled; every error row is all false; the containers are released outfit after outfit |
| CharacterEditor.CharacterDefinitionEditor.ReconcileTarget | unityProject/Assets/Scripts/Editor/CharacterDefinitionEditor.cs:235-301 | the character's outfit data becomes `ReconcileCharacter` of its data before |
| CharacterEditor.CharacterDefinitionEditor.ValidateOutfits | unityProject/Assets/Scripts/Editor/CharacterDefinitionEditor.cs:212-303 | the outfit data becomes `ReconcileCharacter` of the old data and fits the renderer list, which is unchanged. Released are the surplus outfits, then each outfit's surplus containers. Outfits in slots 0-3 stay in their slots as the same objects; the other slots get new outfits; the Outfits array is kept when it had four slots, otherwise replaced by a new one; everything the outfits newly own is new. Every error row is reset |
| CharacterEditor.CharacterDefinitionEditor.RevalidateChangesNothing | unityProject/Assets/Scripts/Editor/CharacterDefinitionEditor.cs:212-303 | on a character that already fits its renderer list, ValidateOutfits releases nothing, keeps every outfit object in its slot and leaves all outfit data as it was |
| CharacterEditor.CharacterDefinitionEditor.ValidateAfterRendererEdit | unityProject/Assets/Scripts/Editor/CharacterDefinitionEditor.cs:539-555 | after a renderer edit, ValidateOutfits runs when the edit changed anything and again when the renderer count changed; either way the outfit data ends as one `ReconcileCharacter` of the data before and the releases are those of one call, since the second call releases nothing; when neither holds nothing changes |
| CharacterEditor.CharacterDefinitionEditor.OutfitsValid | unityProject/Assets/Scripts/Editor/CharacterDefinitionEditor.cs:558-564 | every outfit's pass runs; the result is `CharacterValid` of the outfit data; each error row becomes `ErrorRow` of its outfit |
| CharacterEditor.CharacterDefinitionEditor.DrawOutfitValidity | unityProject/Assets/Scripts/Editor/CharacterDefinitionEditor.cs:631-729 | the result is `OutfitValid` of the outfit's data; the outfit's error row becomes `ErrorRow`; no other row changes |
| CharacterEditor.RendererErrorFlag | unityProject/Assets/Scripts/Editor/CharacterDefinitionEditor.cs:682-708 | the flag is raised exactly when the renderer is enabled and some material slot is unset |
| BundleBuilder.GetExtension | unityProject/Assets/Scripts/Editor/CustomCharacterBundleBuilder.cs:71-73 | the extension is empty or a suffix of the path that starts with a dot and is at least two characters long |
| BundleBuilder.GetExtensionCharacterized | unityProject/Assets/Scripts/Editor/CustomCharacterBundleBuilder.cs:71-73 | the extension is found exactly when the final path component has a dot that is not its last character; it runs from that component's last dot to the end |
| BundleBuilder.GetFileName | unityProject/Assets/Scripts/Editor/CustomCharacterBundleBuilder.cs:37 | the file name is a suffix of the path holding no separator, and it is preceded by a separator when it is shorter than the path |
| BundleBuilder.FolderPath | unityProject/Assets/Scripts/Editor/CustomCharacterBundleBuilder.cs:36-38 | folder path + file name == asset path; the folder is a prefix that is empty or ends in a separator |
| BundleBuilder.BundleName | unityProject/Assets/Scripts/Editor/CustomCharacterBundleBuilder.cs:34 | the bundle name is the character name (empty when unset), then '_', then the replaced character |
| BundleBuilder.BundleNamesDistinguishCharacters | unityProject/Assets/Scripts/Editor/CustomCharacterBundleBuilder.cs:34 | two characters that replace the same character but have different names request different assetBundleName strings (Unity lowercases the name when building, which is not modelled) |
| BundleBuilder.IsBundleAssetCharacterized | unityProject/Assets/Scripts/Editor/CustomCharacterBundleBuilder.cs:71-73 | a file is left out exactly when the text from the last dot of its final path component is ".meta", ".cs" or ".unity"; a file without an extension is kept |
| BundleBuilder.AssetsIn | unityProject/Assets/Scripts/Editor/CustomCharacterBundleBuilder.cs:68-78 | the list is no longer than the enumeration, and every listed path is a bundle asset |
| BundleBuilder.RecursiveGetAllAssetsInDirectory | unityProject/Assets/Scripts/Editor/CustomCharacterBundleBuilder.cs:66-79 | the loop's list is `AssetsIn` of the enumerated files |
| BundleBuilder.AssetsInMembership | unityProject/Assets/Scripts/Editor/CustomCharacterBundleBuilder.cs:69-76 | a path is listed exactly when it is an enumerated file whose extension is not ".meta", ".cs" or ".unity" |
| BundleBuilder.AssetsInCounts | unityProject/Assets/Scripts/Editor/CustomCharacterBundleBuilder.cs:68-78 | each kept path is listed once per occurrence; nothing else is listed |
| BundleBuilder.AssetsInIsSubsequence | unityProject/Assets/Scripts/Editor/CustomCharacterBundleBuilder.cs:68-78 | the list keeps the enumeration order |
| BundleBuilder.AssetsInKeepsAssets | unityProject/Assets/Scripts/Editor/CustomCharacterBundleBuilder.cs:71-76 | files whose extensions are all kept (including none) pass through unchanged |
| BundleBuilder.AssetsInIdempotent | unityProject/Assets/Scripts/Editor/CustomCharacterBundleBuilder.cs:66-79 | filtering the list again changes nothing |
| BundleBuilder.BuildBundle | unityProject/Assets/Scripts/Editor/CustomCharacterBundleBuilder.cs:12-41 | a prefab not on disk is refused first, then one without a CharacterDefinition; otherwise one bundle is requested, named by `BundleName` and holding `AssetsIn` of the prefab folder's files |

## Left out

- Immediate-mode GUI:
  - layout, foldouts (`_materialFoldouts`), toggles, help boxes, icons and styles;
  - the "Copy Original Materials" button.
  They are presentation or user-driven edits. The validity pass models the drawer's non-GUI logic only. The user cannot toggle `EnabledRenderers` in it.
- `Initialize` and the callers of `ValidateOutfits` other than the renderer edit in `ValidateProperties` are left out: engine objects, Undo, the prefab stage, Animator and Avatar access. The model starts from the error rows `Initialize` allocates. The renderer edit itself (the property field and `ApplyModifiedProperties`) is taken as already applied; whether it changed anything is a parameter.
- Preview loading and scene-view drawing, `CharacterRig` validation, the blink-eligibility block and the other property checks of the inspector are outside the modelled core.
- `BuildPipeline.BuildAssetBundles`, output directory creation, directory enumeration, GUID generation, `AssetDatabase` calls, dialogs, logging and the KB size computation are engine I/O or floating point. `BuildBundle` stops at the `AssetBundleBuild` it would hand to the pipeline. The file listing is a parameter.
- `DestroyImmediate` is modelled only as appending to the ghost `released` log. `AddComponent` is modelled as a new object whose arrays are null. The component classes' own source is not part of this model.
- Ownership is required of callers: outfits sit in distinct slots; each outfit owns its arrays, containers and their arrays; no two outfits share any of these. Aliased components are left out.
- `CharacterEditor.CharacterDefinitionEditor.OutfitsValid`: stated for reconciled data only, as `ValidateOutfits` leaves it. On a null or too short array the source throws. Longer arrays and mismatched material counts, which the source accepts, are not covered.
- `CharacterEditor.CharacterDefinitionEditor.DrawOutfitValidity`: stated for reconciled data only, like `OutfitsValid`, with an error row of one flag per renderer. On a null or too short array the source throws. Longer arrays and mismatched material counts, which the source accepts, are not covered.
- `CharacterEditor.CharacterDefinitionEditor.ValidateOutfits`: does not promise that the containers of a kept outfit stay the same objects. That identity is proved per outfit by `OutfitEditor.CharacterOutfit.Reconcile` but is not carried up through the four outfits.
- Error rows that `Initialize` leaves unallocated are modelled as empty rows.
- `CharacterToReplace` is taken as its printed name. Its enum type is not part of this model.
- `Path.GetExtension` and `Path.GetFileName` treat '/' and '\' as separators. The volume separator ':' is not modelled. Paths are never null in the model.

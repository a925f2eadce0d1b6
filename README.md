# liquidpfp profile-picture editor, modelled in Dafny

liquidpfp is a browser tool for making profile pictures. The user uploads one
photo, puts accessory images (hats, seasonal items) on top of it, moves, rotates,
scales and restacks them on a 1024×1024 canvas, and downloads the result as a
square or circular PNG at 512, 1024 or 2048 pixels.

This project models the editor component `PfpMaker` and the accessory catalog:

- `catalog.dfy` (module `Catalog`) is the accessory catalog. It has the category
  type, the accessory record, the three shipped entries, lookup by id and the
  missing-asset message.
- `layers.dfy` (module `Layers`) is the canvas's layer stack, a back-to-front
  sequence of images that each have an identity. It also has the stacking
  operations the editor uses: remove, one step forward or back, to the back,
  to the front, and photo to the bottom.
- `placement.dfy` (module `Placement`) holds the placement maths over reals:
  - `clamp` and the scale control's bounds;
  - cover/contain fitting;
  - an accessory's default placement;
  - the "reset transform" rules.
- `picker.dfy` (module `Picker`) holds the category chips ("All" and then each
  category in the catalog's order of first appearance) and the filtered accessory list.
- `export.dfy` (module `Export`) holds the export parameters:
  - the background colour for each mode;
  - the download file name, with a parser that inverts it;
  - the circular clip region;
  - the outcome of one export run, given what its awaited steps did.
- `editor.dfy` (module `Editor`) is the editor itself. Its class `PfpEditor` has
  these fields:
  - the layer stack;
  - the photo reference;
  - the active selection;
  - the canvas background;
  - the error and export-error messages;
  - the exporting flag;
  - the download name.

  Each handler of the component is a method whose `ensures` gives the whole new
  state in terms of the functions above. Every method keeps the invariant
  `Valid()`:
  - layer ids are unique;
  - the photo reference names exactly the one photo layer, and that layer is at
    the bottom;
  - scales are uniform;
  - the selection names existing layers without repeats.

  The methods `Select` (a pointer selection) and `Remove` (the canvas's own
  `remove`) stand for what Fabric does on the component's behalf.

Image decoding and loading are parameters. `HandleUpload` takes
`Option<ImageSize>`: `None` means a file that did not decode. `AddAccessory`
takes the loaded size, or `None` for a missing asset. The asynchronous steps of
the export are inputs too: `ExportEnv` says whether the resample throws, whether
a 2D context is available and whether the PNG encoding throws.

What the code does, where one might expect otherwise:

- Rotation is stored exactly as given. It is not reduced modulo 360.
- Scale is clamped only by the scale control. Drag handles and reset are not
  clamped.
- Nothing refuses a second export while one is running. The button is only
  disabled in the UI, so no "export in progress" error exists.
- A photo that fails to decode produces no error message. The upload
  handler's `try` has only a `finally`, so the failure propagates to the caller
  and the canvas is left as it was.
- A new accessory becomes the front-most layer (`bringObjectToFront`), above
  every accessory already on the canvas.

## Model

| member | source | states |
|---|---|---|
| Catalog.FindById | src/components/pfp/PfpMaker.tsx:319 | `ACCESSORIES.find` by id: a result is a catalog member with that id, and it is the first such member; `None` exactly when no entry has the id |
| Catalog.FindByIdOfEntry | src/components/pfp/PfpMaker.tsx:318-320 | in a catalog with distinct ids, looking up an entry's id returns that entry |
| Catalog.CatalogIdsDistinct | src/lib/pfp/accessories.ts:12-37 | the shipped entries have pairwise distinct ids |
| Catalog.CatalogLookupIsExact | src/lib/pfp/accessories.ts:12-37 | every shipped entry is found by its own id |
| Catalog.CatalogPlacementHints | src/lib/pfp/accessories.ts:18-35 | every shipped placement hint is a fraction: vertical position in [0, 1], width ratio in (0, 1] |
| Catalog.CatalogSources | src/lib/pfp/accessories.ts:14-33 | every asset path is the accessory directory, the entry's id and `.png` |
| Catalog.MissingAssetMessage | src/components/pfp/PfpMaker.tsx:255-258 | the missing-asset error starts with its lead text, then quotes the failing asset path, then names `public` followed by the catalog's asset directory (with `CatalogSources`, the directory every shipped asset path lies in) |
| Layers.Without | src/components/pfp/PfpMaker.tsx:269-274 | removal keeps exactly the layers whose id is not removed and never grows the stack |
| Layers.Forward | src/components/pfp/PfpMaker.tsx:285 | `bringObjectForward` keeps the stack's length and puts the layer one index higher unless it is on top |
| Layers.Backward | src/components/pfp/PfpMaker.tsx:296 | `sendObjectBackwards` keeps the stack's length and puts the layer one index lower unless it is at the bottom |
| Layers.ToBack | src/components/pfp/PfpMaker.tsx:88 | `sendObjectToBack` keeps the stack's length and puts the layer at index 0 |
| Layers.ToFront | src/components/pfp/PfpMaker.tsx:250 | `bringObjectToFront` keeps the stack's length and puts the layer at the last index |
| Layers.PhotoToBottom | src/components/pfp/PfpMaker.tsx:83-90 | `ensurePhotoOnBottom` keeps the stack's length and, when the photo is on the canvas, puts it at index 0 |
| Layers.WithoutIdempotent | src/components/pfp/PfpMaker.tsx:269-274 | removing the same layers a second time changes nothing |
| Layers.WithoutUnique | src/components/pfp/PfpMaker.tsx:269-274 | removal keeps layer ids unique |
| Layers.ForwardRearranges | src/components/pfp/PfpMaker.tsx:285 | one step forward swaps the layer with the one above it (none at the top), keeps every other position, and only permutes the stack |
| Layers.BackwardRearranges | src/components/pfp/PfpMaker.tsx:296 | one step back swaps the layer with the one below it (none at the bottom), keeps every other position, and only permutes the stack |
| Layers.ToBackRearranges | src/components/pfp/PfpMaker.tsx:88 | to the back: the layer is at index 0, the others keep their relative order, the stack is a permutation, a no-op when it is already at the bottom |
| Layers.ToFrontRearranges | src/components/pfp/PfpMaker.tsx:250 | to the front: the layer is last, the others keep their relative order, the stack is a permutation, a no-op when it is already at the top |
| Layers.PhotoToBottomSpec | src/components/pfp/PfpMaker.tsx:83-90 | `ensurePhotoOnBottom` puts the photo at index 0 with the others in order when the photo is on the canvas, and is a no-op otherwise or when it is already at the bottom |
| Placement.Clamp | src/components/pfp/PfpMaker.tsx:23-25 | the result is within the bounds, equals the input inside them, and is the nearer bound outside them |
| Placement.ScaleFromPercent | src/components/pfp/PfpMaker.tsx:366 | the scale control's factor is always within [0.02, 20] and equals pct/100 when that is in range |
| Placement.Fit | src/components/pfp/PfpMaker.tsx:155-178 | fitting keeps identity, size and angle; a zero-size object is left as it is; otherwise the scale is uniform and the object is centred |
| Placement.FitScaleIgnoresPriorScale | src/components/pfp/PfpMaker.tsx:161-169 | the fitted scale is max (cover) or min (contain) of canvas/image ratios, whatever the previous uniform scale was |
| Placement.FitCoverFills | src/components/pfp/PfpMaker.tsx:165-169 | after a cover fit the scaled image is at least the canvas on both axes and equals it on one |
| Placement.FitContainInside | src/components/pfp/PfpMaker.tsx:166-169 | after a contain fit the scaled image is at most the canvas on both axes and equals it on one |
| Placement.FitKeepsScalePositive | src/components/pfp/PfpMaker.tsx:163-169 | fitting a positively, uniformly scaled object keeps the scale positive and uniform |
| Placement.NewAccessory | src/components/pfp/PfpMaker.tsx:225-247 | a new accessory is centred horizontally at its hinted height, unrotated and uniformly scaled so that its width is the hinted share of the canvas width |
| Placement.DefaultWidthIsRatio | src/components/pfp/PfpMaker.tsx:244-246 | the default scale makes the image's width exactly canvas width times the width ratio |
| Placement.CatalogAccessoryFitsCanvas | src/components/pfp/PfpMaker.tsx:226-246 | a shipped accessory starts with a positive scale and no wider than the canvas |
| Placement.PlaceAccessory | src/components/pfp/PfpMaker.tsx:321-334 | re-placing an accessory keeps its id, kind, size and angle, so only its position and scale change; the reset handler zeroes the angle before calling it |
| Placement.ResetLayer | src/components/pfp/PfpMaker.tsx:301-340 | a reset keeps the layer's identity and size and always leaves it unrotated; a layer that is neither the photo nor an accessory found in the catalog is only unrotated |
| Placement.ResetRestoresNewAccessory | src/components/pfp/PfpMaker.tsx:318-334 | resetting a catalog accessory gives exactly the placement it had when added |
| Placement.ResetRestoresPhotoCover | src/components/pfp/PfpMaker.tsx:310-316 | resetting the photo unrotates it and cover-fits it centred |
| Placement.ResetForgetsPlacement | src/components/pfp/PfpMaker.tsx:301-340 | reset does not depend on the previous position, angle or scale |
| Placement.ResetPhotoIdempotent | src/components/pfp/PfpMaker.tsx:310-316 | resetting the photo twice is the same as resetting it once |
| Picker.Distinct | src/components/pfp/PfpMaker.tsx:68 | the distinct categories are exactly the categories present, each once |
| Picker.DistinctKeepsFirstAppearanceOrder | src/components/pfp/PfpMaker.tsx:68 | distinct categories come in the order of their first appearance |
| Picker.ChipsSpec | src/components/pfp/PfpMaker.tsx:67-70 | the chips start with "All", have no repeats, and include a category exactly when some entry has it |
| Picker.Chips | src/components/pfp/PfpMaker.tsx:67-70 | the chip list starts with "All" and every later chip is a single category |
| Picker.Filtered | src/components/pfp/PfpMaker.tsx:72-75 | "All" shows the whole catalog; a category shows exactly the entries of that category |
| Picker.FilteredSingle | src/components/pfp/PfpMaker.tsx:74 | one entry is kept exactly when the chip is "All" or the entry has the chip's category |
| Picker.FilteredConcat | src/components/pfp/PfpMaker.tsx:74 | filtering a concatenation is the concatenation of the filtered parts, so kept entries stay in catalog order with their multiplicity |
| Picker.CategoryChipsAreNonEmpty | src/components/pfp/PfpMaker.tsx:67-75 | every chip offered filters to a non-empty list |
| Picker.ShippedChips | src/components/pfp/PfpMaker.tsx:67-70 | with the shipped catalog the chips are All, Seasonal, Hats |
| Export.BgColor | src/components/pfp/PfpMaker.tsx:382-387 | the opaque backgrounds are 7-character hex colours and the transparent one is an `rgba(` colour |
| Export.BgColorsDistinct | src/components/pfp/PfpMaker.tsx:382-387 | each background mode renders with its own colour |
| Export.FileName | src/components/pfp/PfpMaker.tsx:431 | the download name starts with `liquid-pfp-` and the shape's name, and ends with `.png` |
| Export.FileNameRoundTrip | src/components/pfp/PfpMaker.tsx:431 | the download name parses back to the shape and size it was made from |
| Export.FileNameInjective | src/components/pfp/PfpMaker.tsx:431 | different shape/size choices give different file names |
| Export.InsideClip | src/components/pfp/PfpMaker.tsx:419-422 | the disc of centre (size/2, size/2) and radius size/2 that `arc` draws; its properties are stated by `ClipRegionInCanvas` |
| Export.ClipRegionInCanvas | src/components/pfp/PfpMaker.tsx:421-422 | the circle clip contains the centre, lies inside the output square and excludes the corners |
| Export.Outcome | src/components/pfp/PfpMaker.tsx:397-450 | a download happens exactly when every step succeeds, under the shape-and-size name; a missing context on a circle export aborts silently; otherwise the first throwing step's message, or the default text, is the error |
| Editor.AtMostOnePhoto | src/components/pfp/PfpMaker.tsx:201-205 | under the invariant at most one layer is a photo, and one is exactly when the photo reference is set |
| Editor.ConsistentAfterRemove | src/components/pfp/PfpMaker.tsx:133-137 | removing any layer (forgetting the photo reference if it was the photo) keeps the invariant |
| Editor.UploadKeepsInvariants | src/components/pfp/PfpMaker.tsx:201-208 | replacing the photo and sending it to the bottom keeps the invariant, with the new photo at the bottom |
| Editor.AddKeepsInvariants | src/components/pfp/PfpMaker.tsx:249-252 | appending an accessory in front keeps the invariant and the photo at the bottom |
| Editor.DeleteKeepsInvariants | src/components/pfp/PfpMaker.tsx:264-278 | deleting every selected layer keeps the invariant, with the photo still at the bottom when it is not deleted |
| Editor.BringForwardOnPhotoIsNoop | src/components/pfp/PfpMaker.tsx:285-286 | bringing the photo forward and then re-bottoming it leaves the stack as it was |
| Editor.BringForwardOnAccessory | src/components/pfp/PfpMaker.tsx:285-286 | bringing an accessory forward needs no re-bottoming |
| Editor.SendBackwardAbovePhotoIsNoop | src/components/pfp/PfpMaker.tsx:296-297 | sending back the layer just above the photo leaves the stack as it was |
| Editor.SendBackwardHigh | src/components/pfp/PfpMaker.tsx:296-297 | sending back a layer higher up is a plain one-step move |
| Editor.PfpEditor.Active | src/components/pfp/PfpMaker.tsx:283-284 | the single active object exists exactly when one layer is selected, it is that layer, and under the invariant it is a layer on the canvas |
| Editor.PfpEditor.constructor | src/components/pfp/PfpMaker.tsx:107-118 | the mounted canvas is empty, unselected, has the initial transparent background and no messages |
| Editor.PfpEditor.EnsurePhotoOnBottom | src/components/pfp/PfpMaker.tsx:83-90 | the stack becomes the photo-to-bottom rearrangement of the old stack and the invariant holds |
| Editor.PfpEditor.HandleUpload | src/components/pfp/PfpMaker.tsx:180-216 | both messages are cleared; a decoded image replaces any previous photo, is cover-fitted, sits at the bottom and is selected; a failed decode changes no layer |
| Editor.PfpEditor.AddAccessory | src/components/pfp/PfpMaker.tsx:218-262 | a loaded accessory is appended front-most at its default placement and selected; a failed load leaves the canvas and sets the missing-asset message |
| Editor.PfpEditor.DeleteSelected | src/components/pfp/PfpMaker.tsx:264-278 | all selected layers are removed, the photo reference is dropped if the photo was among them, the selection is cleared; a no-op with nothing selected |
| Editor.PfpEditor.RemoveEach | src/components/pfp/PfpMaker.tsx:269-274 | the removal loop leaves exactly the layers not in the list and drops the photo reference exactly when the photo was in it |
| Editor.PfpEditor.KeyDown | src/components/pfp/PfpMaker.tsx:129-142 | Delete and Backspace do the same as deleting the selection, and change no layer when nothing is selected; any other key changes nothing |
| Editor.PfpEditor.BringForward | src/components/pfp/PfpMaker.tsx:280-288 | the selected layer moves one step forward and the photo is then re-bottomed |
| Editor.PfpEditor.SendBackward | src/components/pfp/PfpMaker.tsx:290-299 | the selected layer moves one step back and the photo is then sent to the back |
| Editor.PfpEditor.ResetSelectedTransform | src/components/pfp/PfpMaker.tsx:301-344 | the selected layer is replaced by its reset form: cover-fit for the photo, default placement for a catalog accessory, angle 0 otherwise; the stack order is kept |
| Editor.PfpEditor.SetSelectedRotation | src/components/pfp/PfpMaker.tsx:346-358 | only the selected layer's angle changes, to the given degrees |
| Editor.PfpEditor.SetSelectedScalePct | src/components/pfp/PfpMaker.tsx:360-373 | only the selected layer's scale changes, uniformly, to the clamped percentage |
| Editor.PfpEditor.ClearAll | src/components/pfp/PfpMaker.tsx:531-541 | everything is removed, the photo reference and messages are cleared, the background becomes fully transparent |
| Editor.PfpEditor.ExportPng | src/components/pfp/PfpMaker.tsx:375-459 | the render sees the export background and no selection; the status is the run's outcome; the previous background and selection are restored and the exporting flag is cleared whatever the outcome; the error and download name follow the status |

## Left out

- Rendering and Fabric's events are not modelled. Pointer drags that move, rotate or scale a layer through Fabric's handles are not modelled either. The uniform and positive scale parts of `Valid()` therefore cover only the handlers modelled here. Whether a handle scale stays uniform depends on Fabric honouring `lockUniScaling`, which the model does not represent.
- Multi-selection transforms: with several layers selected, Fabric's active object is a group. Forward, backward, reset, rotation and scale are no-ops in the model in that case; the model acts only when exactly one layer is selected.
- `canvas.remove` is assumed to also drop the layer from the active selection. All handlers that remove layers clear the selection afterwards anyway.
- Image decoding and asset loading are inputs (`Option<ImageSize>`), because they are browser I/O.
- The pica resample, its sharpening parameters and PNG encoding are left out, because they are foreign code. Only whether each step throws is an input.
- The pixels of a circle export are not modelled: the model gives the clip region (`InsideClip`), not the `clearRect`, clip and `drawImage` steps that paint the output canvas, nor anti-aliasing at the circle's edge, because they are browser rasterisation.
- Object URLs (creation and revocation), the anchor click, the share link and the download URL are left out, because they are browser side effects. Only the download name is kept.
- The component's unmount clean-up, the mount's CSS sizing and the circle guide overlay are left out, because they are display-only.
- The percentage and degree read-outs of the controls and their slider clamps are left out, because they are display, not state.
- The root layout (`src/app/layout.tsx`) and the button-class helpers are not part of this model, because they are page markup.
- Placement uses exact real arithmetic. JavaScript's floating-point rounding is not modelled.
- Editor.PfpEditor.HandleUpload: a file that fails to decode is modelled as leaving the layers unchanged. The error that propagates out of the handler to its caller is not modelled.
- Editor.PfpEditor.HandleUpload, Editor.PfpEditor.AddAccessory, Editor.PfpEditor.ExportPng: each is modelled as one uninterrupted step. In the component they await image loading, the resample and the PNG encoding, and the canvas stays live meanwhile (only the export button is disabled). A delete or clear that runs during an export is not modelled. Such a handler could leave the restored selection naming a removed layer, or have its background overwritten by the restore. The model's invariant after these handlers relies on this atomicity.

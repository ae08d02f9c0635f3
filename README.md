# Cultural-heritage viewer: a Dafny model

The repository is a web application for cultural-heritage 3D scans. A Next.js frontend
shows models in a Three.js viewer that cuts a mesh into individually colourable faces.
It also has pages for folders, a searchable gallery, a profile and settings. Two Flask
backends serve the data: an older one without accounts (`backend/app.py`) and an
authenticated one (`backend/app_with_auth.py`, with `backend/auth.py`).

This project models the decision logic of these parts:

- **Mesh viewer.** How the viewer decomposes a model into faces, numbers them, computes
  their centroids, chooses each face's colour, reacts to the pointer, picks a loader
  from the URL and falls back to a built-in artifact (module `MeshViewer`, class
  `ActualModel`).
- **Colour picker.** The hex normalisation and validation, 3-to-6 digit expansion, HSV
  conversions and handler clamping (`ColorPicker`, class `HexColorPicker`).
- **Viewer page.** The page's state machine and control-enable rules (`ViewerPage`,
  class `Page`), and the six-face reference viewer (`SimpleViewer`).
- **Folders and gallery.** Folder create, rename and delete (`FoldersPage`), and the
  gallery search and fetch (`GalleryPage`).
- **Header, profile and settings.** The header's user loading, initials and sign-out
  (`NavHeader`), the profile form (`ProfilePage`) and the settings page (`SettingsPage`).
- **Backends.** The upload extension test, upload check order, stored name and MIME
  lookup shared by both backends (`Uploads`). The route replies of each backend
  (`HeritageApi`, `LegacyApi`, over the request-body model in `Requests`). The header
  and role gates and the account manager (`Auth`, class `AuthManager`).

Some modules model the language rather than the repository:

- `Text`: ASCII case mapping, JavaScript whitespace and `trim`, `split`/`join`, suffix
  after a separator, decimal and hex digits.
- `JsNumber`: `parseInt`, `Math.round`, truncating `%` on reals, clamping.
- `JsValue`: JSON values, truthiness, property reads, object spread.
- `Browser`: `localStorage` as a map, and fetch outcomes.
- `Seqs`: subsequences.
- `Wrappers`: `Option`.

Imperative code becomes classes whose methods are proved against specification
functions:

- React state becomes fields that the handlers overwrite.
- Nested `for` loops become `while` loops with invariants.

Pure code becomes functions with lemmas. The values that come from the outside world are
parameters:

- a loader's result (`LoadOutcome`);
- a raycast hit;
- a fetch response;
- the parsed `localStorage` entry and `JSON.stringify`;
- `secure_filename` (`sanitize`) and `uuid4` (`uuid`);
- bcrypt's `checkpw`;
- the JWT decoder (`userFromToken`);
- a statement's `rowcount`;
- `os.path.exists` (`onDisk`).

Colours, hues and coordinates are `real`.

## Model

| member | source | states |
|---|---|---|
| MeshViewer.TraverseIgnoresGroupTransform | components/three-js-viewer.tsx:168-169 | the meshes a traversal visits, and the transforms recorded for them, do not depend on the transform of an enclosing group: each face copies only its own mesh's local transform |
| MeshViewer.Traverse | components/three-js-viewer.tsx:168-169 | definition of `traverse` restricted to meshes: the node first, then its children in order; TraverseIgnoresGroupTransform and ExtractFacesFromModel state its use |
| MeshViewer.TraverseAll | components/three-js-viewer.tsx:168-169 | definition: the traversals of a node's children, concatenated in order |
| MeshViewer.FaceCount | components/three-js-viewer.tsx:178 | the loop `i += 3` runs ceil(slots/3) times: every slot lies in some face and the last face starts inside the buffer |
| MeshViewer.SlotCount | components/three-js-viewer.tsx:178 | definition: the index count of an indexed geometry, the position count otherwise; FaceCount states what the loop makes of it |
| MeshViewer.FaceVertices | components/three-js-viewer.tsx:181-186 | definition: the three vertex reads of slots i, i+1 and i+2; ReadFaceVertices states the loop computes it |
| MeshViewer.VertexAt | components/three-js-viewer.tsx:173-186 | definition of the vertex read for a slot: through the index buffer when there is one (lines 175-185), directly otherwise; none past a buffer's end; ReadFaceVertices states the loop computes it |
| MeshViewer.CentroidInsideCorners | components/three-js-viewer.tsx:204-208 | the centre of three present vertices lies, per coordinate, between the smallest and largest corner |
| MeshViewer.Centroid | components/three-js-viewer.tsx:204-208 | definition: the sum of the three corners divided by 3, a missing corner counting as the origin as `new Vector3(undefined, …)` does; its laws are CentroidInsideCorners, CentroidTranslates, CentroidRotates and CentroidMissingCorner, and FaceCenter states the loop computes it |
| MeshViewer.CentroidTranslates | components/three-js-viewer.tsx:204-208 | moving all three vertices by d moves the centre by d |
| MeshViewer.CentroidRotates | components/three-js-viewer.tsx:252-257 | the centre does not depend on which vertex comes first |
| MeshViewer.CentroidMissingCorner | components/three-js-viewer.tsx:204-208 | a missing corner weighs in the centre exactly as a corner at the origin |
| MeshViewer.Corner | components/three-js-viewer.tsx:205 | definition of `new THREE.Vector3(x, y, z)` of a corner read: the vertex, or the origin for undefined coordinates; CentroidMissingCorner states its effect |
| MeshViewer.PartialSum | components/three-js-viewer.tsx:204-207 | definition of the centre loop's running sum; PartialSumOfThree states it |
| MeshViewer.ReadFaceVertices | components/three-js-viewer.tsx:181-186 | the inner `j` loop collects exactly the three vertices of face slot i (via the index buffer when there is one, directly otherwise) |
| MeshViewer.FaceCenter | components/three-js-viewer.tsx:204-208 | the `k` loop adds the three corners (a missing one as 0) and divides by 3: it computes the centroid, always defined |
| MeshViewer.PartialSumOfThree | components/three-js-viewer.tsx:205-207 | the running sum is always defined and is the vector sum of the three corners, a missing one counting as the origin |
| MeshViewer.FaceColor | components/three-js-viewer.tsx:280-285 | colour precedence: a truthy explicit colour wins; otherwise "#ff6b6b" exactly for the selected face, "#4ecdc4" exactly for a hovered face that is not selected, "#6e56cf" for the rest |
| MeshViewer.FaceColorIsLocal | components/three-js-viewer.tsx:280-285 | a face's colour depends only on its own map entry and whether it is the selected or hovered face |
| MeshViewer.AppliedColorShows | components/three-js-viewer.tsx:281 | after a non-empty colour is assigned to a face, that face shows it whatever the selection and hover are |
| MeshViewer.AllFacesLength | components/three-js-viewer.tsx:164-277 | the extracted list has one face per triple of every sub-mesh, summed over the traversal |
| MeshViewer.MakeFace | components/three-js-viewer.tsx:180-222 | definition of one face record: its index, its three vertices, their centroid (always defined), its mesh's transform and its highlight colour |
| MeshViewer.MeshFaces | components/three-js-viewer.tsx:178-223 | definition: one face per started triple of slots, numbered on from the running counter; CutMesh states the loop computes it |
| MeshViewer.AllFaces | components/three-js-viewer.tsx:164-277 | definition: the faces of every mesh in turn, numbered on across meshes; AllFacesLength, AllFacesNumbered, AllFacesLocate and ExtractFacesFromModel state its properties |
| MeshViewer.AllFacesNumbered | components/three-js-viewer.tsx:166-272 | face indices start at 0 and never reset between meshes: the i-th extracted face has index i |
| MeshViewer.FaceTotalPrefix | components/three-js-viewer.tsx:166-168 | the faces of the meshes before mesh m, plus mesh m's own, never exceed the total |
| MeshViewer.FaceTotal | components/three-js-viewer.tsx:166-272 | definition of the final value of the running `faceIndex` counter; AllFacesLength and FaceTotalPrefix state it |
| MeshViewer.AllFacesLocate | components/three-js-viewer.tsx:178-222 | face k of mesh m sits at global position (faces of earlier meshes) + k and is cut from slots 3k..3k+2 of mesh m |
| MeshViewer.IndexedTriangles | components/three-js-viewer.tsx:173-208 | an index buffer whose length is a multiple of 3 gives length/3 faces; face k uses the positions at indices[3k], indices[3k+1] and indices[3k+2], and its centre is their mean |
| MeshViewer.PlainTriangles | components/three-js-viewer.tsx:224-235 | without an index buffer, a vertex count that is a multiple of 3 gives count/3 faces; face k uses vertices 3k, 3k+1 and 3k+2 |
| MeshViewer.TrailingPartialFace | components/three-js-viewer.tsx:178-235 | a buffer whose length is not a multiple of 3 still yields a last face; its last corner reads past the end, and its centre is the sum of the two corners read before it, divided by 3 |
| MeshViewer.TrailingCornerOfFour | components/three-js-viewer.tsx:226-257 | four plain vertices give two faces, the second made of the fourth vertex and two missing corners, with centre a third of the fourth vertex |
| MeshViewer.CutMesh | components/three-js-viewer.tsx:173-273 | the per-mesh loop pushes exactly that mesh's faces, numbered from the running counter, and advances the counter by its face count |
| MeshViewer.ExtractFacesFromModel | components/three-js-viewer.tsx:164-278 | the traversal loop produces exactly the faces of every sub-mesh in traversal order, numbered globally |
| MeshViewer.ExtensionFormat | components/three-js-viewer.tsx:54-108 | a loader exists exactly for obj, ply, stl, glb and gltf; anything else throws |
| MeshViewer.FormatOf | components/three-js-viewer.tsx:50-108 | definition: the loader is chosen by the lower-cased text after the last dot; FormatOfExtension and FormatOfDotless state it |
| MeshViewer.FormatOfExtension | components/three-js-viewer.tsx:50 | the format of `path.ext` is chosen by the lower-cased text after the last dot, whatever the path holds |
| MeshViewer.FormatOfDotless | components/three-js-viewer.tsx:50 | a URL without a dot is its own extension |
| MeshViewer.ShownModel | components/three-js-viewer.tsx:107-131 | an unsupported extension or a loader error shows the fallback model; a successful load shows the loaded root |
| MeshViewer.FallbackFaces | components/three-js-viewer.tsx:138-161 | the fallback is the base, body and head at (0,-1.5,0), (0,-0.3,0) and (0,1.2,0), and it is decomposed like any other model |
| MeshViewer.FallbackModel | components/three-js-viewer.tsx:138-161 | definition of `createFallbackModel`: a group of the base, body and head at their fixed heights; FallbackFaces states it |
| MeshViewer.SetHex | components/three-js-viewer.tsx:343 | `Color.setHex` keeps only the low 24 bits: every channel is a byte |
| MeshViewer.CssRgb | components/three-js-viewer.tsx:342-343 | the CSS reading of a colour string: defined exactly for 3- and 6-digit hex notation, and always bytes |
| MeshViewer.FrameRgb | components/three-js-viewer.tsx:341-344 | corrected frame colour, which agrees with the CSS reading on every 3- or 6-digit hex colour |
| MeshViewer.FrameRgbAsWritten | components/three-js-viewer.tsx:343 | definition of `setHex(parseInt(color.replace("#", "0x")))`; SixDigitAgrees and ShortHexMisread state where it is right and where it is wrong |
| MeshViewer.ShortHexMisread | components/three-js-viewer.tsx:343 | as written, "#abc" becomes 0x000abc (r=0, g=0x0a, b=0xbc), where CSS means #aabbcc |
| MeshViewer.SplitChannels | components/three-js-viewer.tsx:343 | a 24-bit value r*65536+g*256+b survives the 32-bit reading and is split back into r, g and b |
| MeshViewer.SixDigitValue | components/three-js-viewer.tsx:343 | six hex digits are worth (first pair)*65536 + (middle pair)*256 + (last pair) |
| MeshViewer.SixDigitAgrees | components/three-js-viewer.tsx:343 | for six-digit colours the code as written and the corrected reading coincide |
| MeshViewer.ShortHexExpands | components/three-js-viewer.tsx:343 | the corrected reading gives "#abc" the colour of "#aabbcc" |
| MeshViewer.SixDigit | components/three-js-viewer.tsx:343 | the corrected reading takes each channel from its two-digit pair |
| MeshViewer.TwoDigits | components/three-js-viewer.tsx:343 | two hex digits a, b are worth 16a+b |
| MeshViewer.FrameColors | components/three-js-viewer.tsx:330-344 | as written, each frame recolours every face, one colour per face, each the `setHex(parseInt(color.replace("#", "0x")))` reading of that face's highlight colour |
| MeshViewer.FrameShowsHighlight | components/three-js-viewer.tsx:341-344 | as written, a selected face without its own colour is painted (0xff,0x6b,0x6b), and a hovered one (0x4e,0xcd,0xc4) |
| MeshViewer.FrameColorsIntended | components/three-js-viewer.tsx:330-344 | the corrected frame: one CSS-reading colour per face |
| MeshViewer.FrameColorsAgree | components/three-js-viewer.tsx:330-344 | when every explicit face colour is six-digit hex, the frame as written paints exactly the intended colours |
| MeshViewer.FrameShortHexMisread | components/three-js-viewer.tsx:343 | a face given "#abc" is painted (0,0x0a,0xbc) by the frame as written and (0xaa,0xbb,0xcc) by the corrected frame |
| MeshViewer.HighlightColorsSixDigit | components/three-js-viewer.tsx:282-284 | the selected, hovered and default colours are all six-digit hex notation |
| MeshViewer.HighlightRgb | components/three-js-viewer.tsx:343 | as written, the selected colour is painted (0xff,0x6b,0x6b) and the hovered colour (0x4e,0xcd,0xc4) |
| MeshViewer.ActualModel.constructor | components/three-js-viewer.tsx:39-42 | starts loading, with no model, no faces and no hover |
| MeshViewer.ActualModel.BeginLoad | components/three-js-viewer.tsx:48 | a new load only raises the loading flag |
| MeshViewer.ActualModel.FinishLoad | components/three-js-viewer.tsx:121-131 | ends loading, keeps the shown (loaded or fallback) model and replaces the faces with that model's decomposition |
| MeshViewer.ActualModel.SyncFaces | components/three-js-viewer.tsx:349-371 | faces are attached exactly when triangle view is off (once loading is over) |
| MeshViewer.ActualModel.PointerMove | components/three-js-viewer.tsx:289-311 | in triangle view nothing changes; otherwise a hit sets the hover and a pointer cursor, a miss clears the hover and sets the auto cursor |
| MeshViewer.ActualModel.PointerDown | components/three-js-viewer.tsx:313-317 | a face is selected exactly when one is hovered and triangle view is off, and it is the hovered one |
| MeshViewer.ActualModel.Frame | components/three-js-viewer.tsx:329-346 | a frame sets each face's material colour to the as-written `parseInt`/`setHex` reading of its current highlight colour, and changes nothing else |
| MeshViewer.ViewModes | components/three-js-viewer.tsx:373-386 | in triangle view the original model shows and no face is attached; otherwise all faces are attached and the model shows exactly when explodeAmount is 0 |
| MeshViewer.ModelVisible | components/three-js-viewer.tsx:385 | definition of `showTriangles \|\| explodeAmount === 0`; ViewModes states its effect |
| MeshViewer.ActualModel.HighlightOf | components/three-js-viewer.tsx:280-285 | definition: the colour map and selection from the props with the component's own hovered face; it reads only the hover field |
| MeshViewer.ActualModel.Render | components/three-js-viewer.tsx:373-386 | definition of the rendered group: a placeholder while loading, else the model with its visibility and the attached faces; ViewModes states it |
| ColorPicker.WithHash | components/color-picker.tsx:149-152 | the input always ends up starting with '#', by prepending one only when it is missing |
| ColorPicker.WithHashIdempotent | components/color-picker.tsx:149-152 | normalising twice is normalising once |
| ColorPicker.IsValidHexColor | components/color-picker.tsx:155 | definition of the regular expression `^#([A-Fa-f0-9]{6}\|[A-Fa-f0-9]{3})$`; HsvToHexIsValid and ValidHexParses state its relation to the conversions |
| ColorPicker.StripHash | components/color-picker.tsx:208 | definition of `replace(/^#/, "")`: one leading '#' removed |
| ColorPicker.ExpandShort | components/color-picker.tsx:211-213 | a 3-digit hex is doubled digit by digit ("abc" becomes "aabbcc"); other lengths stay as they are |
| ColorPicker.Substring | components/color-picker.tsx:216-218 | `substring` within bounds is the slice, and never longer than asked |
| ColorPicker.ChannelsToHsvRange | components/color-picker.tsx:220-241 | from bytes: hue is a whole number in [0,360) (a negative one gets 360 added), saturation and value lie in [0,1], value is the largest channel, and saturation is 0 exactly for greys |
| ColorPicker.ChannelsToHsv | components/color-picker.tsx:220-241 | definition of the RGB-to-HSV step; ChannelsToHsvRange and BlueHsv state its range and a value |
| ColorPicker.HexToHsv | components/color-picker.tsx:206-242 | definition of `hexToHsv`, none when a channel is NaN; ValidHexParses, ShortFormIsLongForm and BlueParses state its properties |
| ColorPicker.QuotientInUnit | components/color-picker.tsx:230-236 | the hue quotient (difference over delta) lies in [-1,1] |
| ColorPicker.RatioInUnit | components/color-picker.tsx:238-239 | delta over max lies in [0,1] and is 0 only for delta 0 |
| ColorPicker.ValidHexParses | components/color-picker.tsx:206-242 | every colour the input accepts parses to the HSV of some three bytes |
| ColorPicker.ChannelDigits | components/color-picker.tsx:216-218 | each pair of six hex digits parses to a byte |
| ColorPicker.Channel | components/color-picker.tsx:216-218 | definition of `parseInt(hex.substring(i, i + 2), 16)`; ChannelDigits states it |
| ColorPicker.ShortFormIsLongForm | components/color-picker.tsx:211-213 | "#abc" and "#aabbcc" have the same HSV |
| ColorPicker.ToHexByte | components/color-picker.tsx:285-288 | `toHex` of a byte is exactly two lower-case hex digits (zero-padded) worth that byte |
| ColorPicker.ToHex | components/color-picker.tsx:285-288 | definition of `toHex`: `toString(16)` padded to two digits; ToHexByte and ZeroAndFull state it |
| ColorPicker.MulInUnit | components/color-picker.tsx:247-249 | chroma scaled by a factor in [0,1] stays within the chroma |
| ColorPicker.SectorInUnit | components/color-picker.tsx:255-279 | the six hue sectors give channel values in [0,1] once m is added |
| ColorPicker.Sector | components/color-picker.tsx:255-279 | definition of the six hue branches; SectorInUnit and SectorBytes state their ranges |
| ColorPicker.ByteOfUnit | components/color-picker.tsx:281-283 | rounding 255 times a unit value gives a byte |
| ColorPicker.BytesInRange | components/color-picker.tsx:281-283 | unit channels become bytes |
| ColorPicker.Bytes | components/color-picker.tsx:281-283 | definition of the three `Math.round((c + m) * 255)`; BytesInRange states their range |
| ColorPicker.SectorBytes | components/color-picker.tsx:255-283 | whichever sector, the three output channels are bytes |
| ColorPicker.SecondaryInChroma | components/color-picker.tsx:248 | x = c(1 - abs(h/60 mod 2 - 1)) lies in [0,c] |
| ColorPicker.Secondary | components/color-picker.tsx:248 | definition of `c * (1 - Math.abs(((h / 60) % 2) - 1))`; SecondaryInChroma states its range |
| ColorPicker.ReducedChannelsInRange | components/color-picker.tsx:245-283 | after the hue reduction every channel is a byte |
| ColorPicker.ReducedHueChannels | components/color-picker.tsx:247-283 | definition of `hsvToHex`'s channels after `h % 360`; ReducedChannelsInRange states their range |
| ColorPicker.ChannelsInRange | components/color-picker.tsx:244-290 | for any hue and saturation, value in [0,1], every channel is a byte |
| ColorPicker.HsvToChannels | components/color-picker.tsx:245-283 | definition: the hue reduced by `h % 360`, then the reduced channels; ChannelsInRange and NoSaturationIsGrey state its properties |
| ColorPicker.HsvToHexIsValid | components/color-picker.tsx:281-290 | the output is '#' and six lower-case hex digits encoding the three channels, so the input accepts it again |
| ColorPicker.HsvToHex | components/color-picker.tsx:244-291 | definition of `hsvToHex`; HsvToHexIsValid, HueWrapsAround, NoSaturationIsGrey, Red, Green and Blue state its properties |
| ColorPicker.HueWrapsAround | components/color-picker.tsx:245 | the hue is reduced modulo 360: h+360 gives the colour of h |
| ColorPicker.NoSaturationIsGrey | components/color-picker.tsx:248-278 | with saturation 0 all three channels are equal |
| ColorPicker.Red | components/color-picker.tsx:244-291 | hue 0, s=1, v=1 is "#ff0000" |
| ColorPicker.Green | components/color-picker.tsx:244-291 | hue 120 is "#00ff00" |
| ColorPicker.Blue | components/color-picker.tsx:244-291 | hue 240 is "#0000ff" |
| ColorPicker.BlueParses | components/color-picker.tsx:206-218 | "#0000ff" parses to channels (0,0,255) |
| ColorPicker.BlueHsv | components/color-picker.tsx:220-241 | (0,0,255) is hue 240, s=1, v=1 |
| ColorPicker.BlueReadsBack | components/color-picker.tsx:206-291 | hex "#0000ff" and HSV (240,1,1) convert into each other |
| ColorPicker.ZeroAndFull | components/color-picker.tsx:285-288 | `toHex` pads 0 to "00" and gives 255 as "ff" |
| ColorPicker.HexColorPicker.constructor | components/color-picker.tsx:14-20 | starts at the given colour, hue 0, saturation and value 1, not dragging |
| ColorPicker.HexColorPicker.SyncWithProp | components/color-picker.tsx:23-28 | a new colour prop sets hue, saturation and value to its HSV |
| ColorPicker.HexColorPicker.HandleHexChange | components/color-picker.tsx:146-167 | the shown text is the '#'-normalised input; a colour is emitted and the HSV updated exactly when it is valid hex; otherwise the HSV stays |
| ColorPicker.HexColorPicker.CanvasMouseDownAsWritten | components/color-picker.tsx:82-85 | as written, a canvas click starts dragging and emits the colour with the first render's hue |
| ColorPicker.HexColorPicker.CanvasMouseDown | components/color-picker.tsx:82-110 | corrected canvas click: starts dragging, clamps s and v to [0,1] and emits the colour of the current hue |
| ColorPicker.HexColorPicker.CanvasMouseMove | components/color-picker.tsx:87-110 | moving without dragging does nothing; while dragging, s and v are clamped to [0,1] and the colour is emitted |
| ColorPicker.HexColorPicker.SliderMouseDown | components/color-picker.tsx:113-131 | the slider clamps the hue to [0,360] and emits the colour, keeping s and v |
| ColorPicker.HexColorPicker.MouseUp | components/color-picker.tsx:134-143 | releasing only ends dragging |
| ColorPicker.StaleHueScenario | components/color-picker.tsx:82-85 | with hue 240 set, a click at s=1, v=1 emits "#ff0000" as written, where "#0000ff" is meant |
| ViewerPage.Number | app/viewer/page.tsx:41-43 | `Number(...)` of a decimal parameter is a non-negative integer, and anything else is not a number |
| ViewerPage.IdParam | app/viewer/page.tsx:41-43 | definition of `Number(searchParams.get(...) \|\| "1")`; MissingModelIsFirst and DecimalIdFindsModel state it |
| ViewerPage.FindModel | app/viewer/page.tsx:15-43 | an id finds a model exactly when it is 1..15; the model found has that id and the demo URL |
| ViewerPage.FolderName | app/viewer/page.tsx:33-37 | folder names exist exactly for ids 1..3 |
| ViewerPage.MissingModelIsFirst | app/viewer/page.tsx:41-43 | a missing (or empty) model parameter shows model 1 |
| ViewerPage.DecimalIdFindsModel | app/viewer/page.tsx:41-43 | the parameter "n", for n in 1..15, shows table entry n |
| ViewerPage.OutOfTableNotFound | app/viewer/page.tsx:97-107 | a non-numeric, zero or out-of-range id renders "Model Not Found" |
| ViewerPage.Page.constructor | app/viewer/page.tsx:41-52 | looks up the model and folder, and starts with no selection, an empty colour map, explode 0, solid view and key 0 |
| ViewerPage.Page.Render | app/viewer/page.tsx:97-132 | the page is "not found" exactly when no model was found; otherwise it shows its name and keys the viewer by the reset counter |
| ViewerPage.Page.Props | app/viewer/page.tsx:131-140 | definition of the props the page hands the viewer; Render and ResetExplosion state their use |
| ViewerPage.Page.ApplyColorEnabled | app/viewer/page.tsx:286 | definition: "Apply Color" is enabled exactly with a selection outside triangle view; the handlers' ensures state how it changes |
| ViewerPage.Page.ResetColorsEnabled | app/viewer/page.tsx:295 | definition: "Reset All Colors" is enabled exactly when some face has a colour |
| ViewerPage.Page.ExplodeSliderEnabled | app/viewer/page.tsx:241 | definition: the explode slider is enabled exactly outside triangle view |
| ViewerPage.Page.ResetExplosionEnabled | app/viewer/page.tsx:249 | definition: "Reset Explosion" is enabled exactly when exploded and outside triangle view |
| ViewerPage.Page.HandleFaceSelect | app/viewer/page.tsx:75-77 | selecting sets the selection to the emitted index and touches nothing else |
| ViewerPage.Page.ApplyColorToFace | app/viewer/page.tsx:79-86 | with a selection, that face's entry becomes the chosen colour (overwriting) and every other entry stays, so Reset becomes enabled; with none, nothing changes |
| ViewerPage.Page.ResetColors | app/viewer/page.tsx:88-91 | empties the colour map and clears the selection, disabling Reset and Apply |
| ViewerPage.Page.HandleResetCamera | app/viewer/page.tsx:93-95 | the reset key grows by exactly one, so the viewer is re-keyed and remounts |
| ViewerPage.Page.SetSelectedColor | app/viewer/page.tsx:280 | the picker's colour becomes the selected colour and nothing else changes |
| ViewerPage.Page.SetShowTriangles | app/viewer/page.tsx:176-189 | switches the view; in triangle view Apply, the explode slider and Reset Explosion are disabled |
| ViewerPage.Page.SetExplodeAmount | app/viewer/page.tsx:235-242 | the slider sets an amount in [0,3] and nothing else |
| ViewerPage.Page.ResetExplosion | app/viewer/page.tsx:248-249 | explode goes back to 0, which disables its button and shows the original model |
| ViewerPage.ResetShowsDefaults | app/viewer/page.tsx:88-91 | after a reset each face shows hover colour if hovered, the default colour otherwise |
| ViewerPage.PickedColorsRenderAsWritten | app/viewer/page.tsx:280 | colours from the canvas and slider (HsvToHex) are six-digit and are painted correctly |
| ViewerPage.InitialColorRendersAsWritten | app/viewer/page.tsx:47 | the initial selected colour is six-digit and painted correctly |
| SimpleViewer.FaceColorOf | components/three-js-viewer-simple.tsx:34-39 | a face shows its truthy map colour, otherwise "#6E56CF" |
| SimpleViewer.Faces | components/three-js-viewer-simple.tsx:33-40 | exactly six faces, ids 0..5, each with its colour and its fixed direction |
| SimpleViewer.Direction | components/three-js-viewer-simple.tsx:33-40 | definition of the six positions top, bottom, right, left, front, back; Faces states them |
| SimpleViewer.Exploded | components/three-js-viewer-simple.tsx:47-56 | definition of `p + p * (explodeAmount * 0.5)` per coordinate; ExplodeScales states it is a scaling |
| SimpleViewer.Emissive | components/three-js-viewer-simple.tsx:45-65 | emissive is "#333333" when selected, else "#222222" when hovered, else "#000000" |
| SimpleViewer.RenderedFaces | components/three-js-viewer-simple.tsx:42-68 | renders six faces, each with its id, colour, emissive and position base*(1 + explodeAmount/2) |
| SimpleViewer.Render | components/three-js-viewer-simple.tsx:42-68 | definition of the drawn group; RenderedFaces, OneSelectedGlow and TrianglesAndUrlIgnored state its properties |
| SimpleViewer.ExplodeScales | components/three-js-viewer-simple.tsx:47-56 | base + base*(0.5*explodeAmount) is base scaled by 1 + explodeAmount/2 |
| SimpleViewer.OneSelectedGlow | components/three-js-viewer-simple.tsx:45-65 | a face glows as selected exactly when it is the selected face |
| SimpleViewer.TrianglesAndUrlIgnored | components/three-js-viewer-simple.tsx:84-89 | showTriangles and modelUrl do not change what is drawn |
| SimpleViewer.HandlersTrackFaces | components/three-js-viewer-simple.tsx:58-60 | a click emits the face's own id; entering hovers it (glowing unless selected); leaving clears the hover |
| SimpleViewer.OnClick | components/three-js-viewer-simple.tsx:58 | definition: a click reports the face's id; HandlersTrackFaces states it |
| SimpleViewer.OnPointerEnter | components/three-js-viewer-simple.tsx:59 | definition: entering sets the hover to the face's id; HandlersTrackFaces states its glow |
| SimpleViewer.OnPointerLeave | components/three-js-viewer-simple.tsx:60 | definition: leaving clears the hover; HandlersTrackFaces states it |
| FoldersPage.MaxId | app/folders/page.tsx:43 | the maximum of 0 and the ids: at least every id, and either 0 or some folder's id |
| FoldersPage.NextId | app/folders/page.tsx:43 | the new id is larger than every existing id (so unused) and is 1 for an empty list |
| FoldersPage.Renamed | app/folders/page.tsx:63-65 | only the folders with the matching id get the new name; length, order and other fields stay |
| FoldersPage.Without | app/folders/page.tsx:79 | deletion keeps, in order, exactly the folders whose id differs |
| FoldersPage.WithoutMultiset | app/folders/page.tsx:79 | deletion is exactly `filter`: each folder with another id is kept as often as it occurs, each with that id dropped |
| FoldersPage.RenamedKeepsIds | app/folders/page.tsx:63-65 | renaming changes no id, so distinct ids stay distinct |
| FoldersPage.WithoutCount | app/folders/page.tsx:79 | with distinct ids, a delete removes one folder if the id exists and none otherwise |
| FoldersPage.DeleteKeepsValid | app/folders/page.tsx:75-87 | a delete keeps folder ids distinct and positive, and removes exactly one folder when the id exists |
| FoldersPage.Page.constructor | app/folders/page.tsx:22-35 | starts with the three sample folders and closed dialogs |
| FoldersPage.Page.SetCreateDialogOpen | app/folders/page.tsx:96-98 | the create dialog's open flag becomes the given value (trigger, Cancel, dismissal) and nothing else changes |
| FoldersPage.Page.SetNewFolderName | app/folders/page.tsx:113 | typing sets only the new folder's name |
| FoldersPage.Page.HandleCreateFolder | app/folders/page.tsx:38-57 | a blank name changes nothing; otherwise the untrimmed name is appended with the next id and 0 files, the input clears and the dialog closes |
| FoldersPage.Page.StartEdit | app/folders/page.tsx:151-159 | the click stores the folder's id and name, then the trigger opens the edit dialog on that folder's card |
| FoldersPage.Page.EditName | app/folders/page.tsx:170 | typing changes only the edited name |
| FoldersPage.Page.EditDialogOpenChange | app/folders/page.tsx:144-149 | the edit dialog's open flag becomes the given value; closing also drops the copy being edited |
| FoldersPage.Page.CancelEdit | app/folders/page.tsx:174-176 | Cancel closes the edit dialog on every card and keeps the copy |
| FoldersPage.Page.EditDialogShownFor | app/folders/page.tsx:145 | definition of `isEditDialogOpen && editingFolder?.id === folder.id`; StartEdit and CancelEdit state how it changes |
| FoldersPage.Page.HandleEditFolder | app/folders/page.tsx:59-73 | no edit target or a blank name changes nothing; otherwise the matching folders are renamed and the dialog closes |
| FoldersPage.Page.StartDelete | app/folders/page.tsx:189-198 | the click picks the folder to delete, then the trigger opens the delete dialog on that folder's card |
| FoldersPage.Page.DeleteDialogOpenChange | app/folders/page.tsx:182-187 | the delete dialog's open flag becomes the given value; closing also forgets the target |
| FoldersPage.Page.CancelDelete | app/folders/page.tsx:208-210 | Cancel closes the delete dialog on every card and keeps the target |
| FoldersPage.Page.DeleteDialogShownFor | app/folders/page.tsx:183 | definition of `isDeleteDialogOpen && folderToDelete === folder.id`; StartDelete and CancelDelete state how it changes |
| FoldersPage.Page.HandleDeleteFolder | app/folders/page.tsx:75-87 | no target changes nothing; otherwise that id's folders go, the rest keep their order, and the dialog closes |
| GalleryPage.Filter | app/gallery/page.tsx:47-56 | an order-preserving subsequence that keeps exactly the models matching the query |
| GalleryPage.FilterMultiset | app/gallery/page.tsx:49-56 | the search is exactly `filter`: each matching model is kept as often as it occurs, each other dropped |
| GalleryPage.Matches | app/gallery/page.tsx:49-56 | definition of the filter test: the query in name, uploader username, uploader name, a present non-empty organisation, or folder name |
| GalleryPage.FieldMatches | app/gallery/page.tsx:50-55 | definition of `s.toLowerCase().includes(query)`; SearchFilterSpec and QueryCaseIgnored state its use |
| GalleryPage.SearchFilterSpec | app/gallery/page.tsx:43-59 | a blank query shows all models; otherwise exactly those with the lower-cased (untrimmed) query in name, uploader username, uploader name, present organisation or folder name, in order, never more than the total |
| GalleryPage.SearchFilter | app/gallery/page.tsx:43-59 | definition of the search effect; SearchFilterSpec states its properties |
| GalleryPage.QueryCaseIgnored | app/gallery/page.tsx:48 | the letter case of the query does not change the result |
| GalleryPage.Page.constructor | app/gallery/page.tsx:28-31 | starts loading, with no models and an empty query |
| GalleryPage.Page.SetSearchQuery | app/gallery/page.tsx:43-59 | a new query recomputes the filtered list from all models |
| GalleryPage.Page.FetchAllModels | app/gallery/page.tsx:61-111 | no token sends to /auth without fetching; a 401 clears token and user and sends to /auth; an ok response with data replaces the models; anything else keeps them; loading ends in every case |
| NavHeader.DisplayName | components/nav-header.tsx:134 | "first last" when both names are present, otherwise the username |
| NavHeader.NameField | components/nav-header.tsx:74-79 | definition of reading a name field as a string, empty when absent or not a string; InitialsShape states its use |
| NavHeader.HasFullName | components/nav-header.tsx:75 | definition of `user.first_name && user.last_name`; DisplayName and InitialsShape state its use |
| NavHeader.InitialsShape | components/nav-header.tsx:74-79 | initials are one or two upper-case characters, two exactly when both names are present, and "U" without a username |
| NavHeader.InitialsFollowName | components/nav-header.tsx:74-79 | the initials are the upper-cased first letters of the displayed first and last name, or of the displayed username |
| NavHeader.Initials | components/nav-header.tsx:74-79 | definition of `getUserInitials`; InitialsShape and InitialsFollowName state its properties |
| NavHeader.Header.constructor | components/nav-header.tsx:22-23 | starts loading, with no user |
| NavHeader.Header.SignedIn | components/nav-header.tsx:106 | definition: the menu shows a user while `user` is truthy; SignOut states it ends |
| NavHeader.Header.LoadUser | components/nav-header.tsx:25-38 | a user is shown only when both token and user data are stored and parse; loading ends |
| NavHeader.Header.SignOut | components/nav-header.tsx:40-72 | token and user data are removed, the user is cleared and the route is "/", whether or not the logout request fails |
| ProfilePage.FormFromUser | app/profile/page.tsx:37-43 | the form has exactly the five fields |
| ProfilePage.FormDefaults | app/profile/page.tsx:37-43 | a truthy stored field is taken; otherwise it is "" (and "researcher" for the role) |
| ProfilePage.MergeFormWins | app/profile/page.tsx:99-101 | the updated user has the old user's keys and the form's; form values win, others are the old user's |
| ProfilePage.Merged | app/profile/page.tsx:99 | definition of `{ ...user, ...formData }`; MergeFormWins states what it holds |
| ProfilePage.InitialsAfterUpdate | app/profile/page.tsx:99-124 | after an update with both names set, the initials are their upper-cased first letters |
| ProfilePage.Page.constructor | app/profile/page.tsx:21-29 | starts with no user and the default form |
| ProfilePage.Page.LoadUser | app/profile/page.tsx:31-48 | stored, parseable user data becomes the user and fills the form with defaults; otherwise nothing changes |
| ProfilePage.Page.HandleChange | app/profile/page.tsx:50-55 | only the named field changes |
| ProfilePage.Page.HandleRoleChange | app/profile/page.tsx:57-62 | only the role changes |
| ProfilePage.Page.HandleSubmit | app/profile/page.tsx:64-117 | a 401 clears the session and sends to /auth; a successful update stores the merged user; otherwise nothing changes but loading ends |
| SettingsPage.LoadSettings | app/settings/page.tsx:39-42 | a stored `null` makes the load fail (the catch); everything else gives settings |
| SettingsPage.LoadDefaults | app/settings/page.tsx:24-42 | stored notifications replace the defaults wholesale; language falls back to "en" when missing or empty; a stored autoSave (even false) is kept and only a missing one is true |
| SettingsPage.SettingsObject | app/settings/page.tsx:50-55 | the saved object has exactly notifications, language, autoSave and theme (theme dropped when undefined) |
| SettingsPage.SaveLoadRoundTrip | app/settings/page.tsx:40-56 | saving and loading again gives back the same settings |
| SettingsPage.Toggled | app/settings/page.tsx:147-152 | a switch sets its own flag and copies every other flag unchanged |
| SettingsPage.ToggleLaws | app/settings/page.tsx:147-184 | toggling a flag twice keeps the last; toggles of different flags commute |
| SettingsPage.Page.constructor | app/settings/page.tsx:24-31 | starts with the default settings |
| SettingsPage.Page.LoadEffect | app/settings/page.tsx:33-47 | stored, parseable settings replace the current ones through the defaulting rules; otherwise they stay |
| SettingsPage.Page.SetNotification | app/settings/page.tsx:147-184 | one switch changes only its flag |
| SettingsPage.Page.SetAutoSave | app/settings/page.tsx:202 | the auto-save switch sets autoSave only |
| SettingsPage.Page.SetLanguage | app/settings/page.tsx:210 | the select sets the language only |
| SettingsPage.Page.SaveSettings | app/settings/page.tsx:49-56 | writes the settings object under "user_settings" and leaves every other entry |
| Uploads.AllowedFileIff | backend/app_with_auth.py:55-56 | a name is allowed exactly when it has a last dot and the lower-cased text after it is an allowed extension |
| Uploads.AllowedFile | backend/app_with_auth.py:55-56 | definition of `allowed_file`; AllowedFileIff restates it independently and proves the two agree |
| Uploads.Extension | backend/app_with_auth.py:56 | definition of `rsplit('.', 1)[1].lower()`; ExtensionAfterDot and Text.AfterLastIsSuffix state it |
| Uploads.LegacyAcceptsLess | backend/app.py:14-32 | the older backend accepts a subset of the authenticated one's names; .glb and .gltf only the latter |
| Uploads.ExtensionAfterDot | backend/app_with_auth.py:56 | the extension of p + "." + e (e without dots) is e lower-cased |
| Uploads.UpperCaseAllowed | backend/app_with_auth.py:56 | "statue.OBJ" is allowed: the test ignores case |
| Uploads.LastDotCounts | backend/app_with_auth.py:56 | any name ending in ".zip" is refused, whatever dots come before |
| Uploads.CheckUpload | backend/app_with_auth.py:253-277 | accepted exactly when the folder is found and a non-empty, allowed filename is sent; a 404 exactly when the folder is missing, a 400 otherwise |
| Uploads.CheckOrder | backend/app_with_auth.py:253-277 | each refusal names the first failing check: folder, then file part, then empty name, then extension |
| Uploads.StoredName | backend/app_with_auth.py:284-286 | a stored name exists exactly when the sanitised name has a dot (otherwise the indexing raises) |
| Uploads.StoredNameKeepsExtension | backend/app_with_auth.py:285-286 | the stored name is the identifier, a dot and the lower-cased extension, so it passes the same test |
| Uploads.Upload | backend/app_with_auth.py:253-318 | refused exactly when a check fails; saved only for an allowed file, under the sanitised name, with the extension as file type; a sanitised name without a dot is the 500 |
| Uploads.SavedTypeAllowed | backend/app_with_auth.py:284-300 | when sanitising keeps the extension, the recorded file type is allowed |
| Uploads.MimeType | backend/app_with_auth.py:378-386 | obj is text/plain, glb model/gltf-binary, gltf model/gltf+json, each exactly; anything else application/octet-stream |
| Requests.EmptyBodyTestRedundant | backend/app.py:84 | `not data or key not in data` fails exactly for a missing body or a missing key |
| Requests.Falsy | backend/app.py:84 | definition of Python's `not data`: no body or an empty object |
| Requests.Lacks | backend/app.py:84 | definition of `not data or key not in data`; EmptyBodyTestRedundant states it |
| HeritageApi.RegisterRequest | backend/app_with_auth.py:63-74 | arguments exist exactly when username, email and password are present; role defaults to "researcher", optional fields to None |
| HeritageApi.Get | backend/app_with_auth.py:71-74 | definition of `data.get(key, default)`; RegisterRequest states its defaults |
| HeritageApi.RegisterReply | backend/app_with_auth.py:61-80 | 201 exactly when fields are present and the registration succeeds; 400 "Missing required fields" or the manager's error otherwise |
| HeritageApi.LoginReply | backend/app_with_auth.py:84-92 | 400 without a body or either credential; 200 exactly when authentication succeeds, 401 exactly when it fails |
| HeritageApi.CreateFolderRequest | backend/app_with_auth.py:162-174 | refused exactly without a body or a name; the description defaults to "" |
| HeritageApi.CreateFolderReply | backend/app_with_auth.py:156-190 | 400 "Folder name is required" exactly when the body has no name, otherwise 201 |
| HeritageApi.UploadModel | backend/app_with_auth.py:253-277 | 404 for a folder the user does not own, the full-format 400 for a bad extension, and only allowed formats are saved |
| HeritageApi.DownloadModel | backend/app_with_auth.py:371-386 | 404 "Model not found", then 404 "File not found on disk"; otherwise the file with its type's MIME |
| HeritageApi.SavedModelServedByType | backend/app_with_auth.py:378-386 | an uploaded model is later served with the MIME type of its format |
| LegacyApi.CreateFolderReply | backend/app.py:84-97 | 201 exactly with a body holding a name, else 400 "Folder name is required" |
| LegacyApi.CreateFolderAgrees | backend/app.py:81-97 | both backends answer a folder-creation body alike |
| LegacyApi.UpdateFolderReply | backend/app.py:103-120 | the name check comes first (400), then 404 when no row changed; 200 exactly for a name and a changed row |
| LegacyApi.DeleteFolderReply | backend/app.py:134-149 | 200 exactly when a row was deleted, else 404 |
| LegacyApi.UploadModel | backend/app.py:197-226 | 404 for a missing folder, 400 "File type not allowed" for anything but obj, ply and stl; only those are saved |
| LegacyApi.SavesLessThanHeritage | backend/app.py:197-226 | what the older backend saves the authenticated one saves identically; .glb and .gltf it refuses |
| Auth.HeaderToken | backend/auth.py:236-238 | the second space-separated field, absent exactly when the header has no space |
| Auth.RequireAuth | backend/auth.py:230-253 | no header: 401 missing; no space: 401 invalid format; an empty token: 401 missing; an unknown token: 401; passes exactly with a non-empty token that resolves, giving that user |
| Auth.TokenIsSecondField | backend/auth.py:236 | for any space-free fields, the token read back is the second one |
| Auth.SchemeNotChecked | backend/auth.py:236 | any scheme word is treated like "Bearer" |
| Auth.HeaderOfTwo | backend/auth.py:236 | "scheme token" yields the token |
| Auth.EmptyTokenIsMissing | backend/auth.py:236-241 | "Bearer " counts as a missing token |
| Auth.RequireRole | backend/auth.py:262-267 | 401 without a user; passes exactly when the role is the required one or "admin"; 403 otherwise |
| Auth.RoleOf | backend/auth.py:265 | definition of `request.current_user.get('role')`; RequireRole and AdminPassesEveryRole state its use |
| Auth.AdminPassesEveryRole | backend/auth.py:265 | an admin passes every role check; a user without a role passes none |
| Auth.StackedGates | backend/auth.py:230-267 | the two decorators together pass exactly when authentication passes and the role fits |
| Auth.Clashes | backend/auth.py:73 | definition of `username = %s OR email = %s`; RegisterUser states its effect |
| Auth.DatabaseNamesDistinct | backend/auth.py:89 | distinct user ids get distinct "heritage_user_<id>" databases |
| Auth.DatabaseName | backend/auth.py:89 | definition of `f"heritage_user_{user_id}"`; DatabaseNamesDistinct and RegisterUser state its use |
| Auth.FindLogin | backend/auth.py:119-126 | the first row matching by username or email among active users, and none exactly when no row matches |
| Auth.LoginMatches | backend/auth.py:120-123 | definition of `(username = %s OR email = %s) AND is_active = TRUE` with the login for both |
| Auth.LoginOutcome | backend/auth.py:119-167 | definition of the login answer; FailuresLookAlike states it, and AuthenticateUser states the loop computes it |
| Auth.FailuresLookAlike | backend/auth.py:119-167 | every failure is "Invalid credentials", an unknown or inactive user included; a success is an active matching user whose password checks |
| Auth.AuthManager.constructor | backend/auth.py:10-13 | an empty user table with ids from 1 |
| Auth.AuthManager.RegisterUser | backend/auth.py:61-103 | a clashing username or email is refused and changes nothing; otherwise an active row with the next id and its database name is added |
| Auth.AuthManager.AuthenticateUser | backend/auth.py:109-167 | the lookup loop computes the specified login outcome |
| Auth.AuthManager.NewUserCanLogIn | backend/auth.py:81-129 | a user just registered can log in with their username and password |
| Text.JoinSplit | backend/auth.py:236 | joining space-free fields and splitting again gives the fields back |
| Text.SplitJoin | backend/auth.py:236 | splitting and joining again gives the header back |
| Text.AfterLastIsSuffix | backend/app_with_auth.py:56 | `rsplit('.', 1)[1]` is the dot-free suffix after the last dot |
| Text.TrimEmptyIffBlank | app/folders/page.tsx:39 | `trim()` is empty exactly for blank names |
| Text.DecimalRoundTrip | app/viewer/page.tsx:41-43 | a decimal id string reads back as its number |
| Text.HexRoundTrip | components/color-picker.tsx:286 | `toString(16)` reads back as its number, with one digit below 16 and two below 256 |
| JsNumber.ParseHexLiteral | components/three-js-viewer.tsx:343 | `parseInt("0x" + digits)` is the hex value of the digits |
| JsNumber.ParseInt | components/color-picker.tsx:216-218 | definition of `Number.parseInt` (leading blanks, sign, `0x`, longest digit run, NaN as none); ParseHexLiteral and ChannelDigits state it |
| JsNumber.Clamp | components/color-picker.tsx:98-122 | `Math.max(lo, Math.min(hi, x))` lies in [lo,hi], is x inside it and the nearer bound outside |
| JsNumber.RemPeriodic | components/color-picker.tsx:245 | JavaScript `%` of a non-negative value is periodic in the divisor |
| JsNumber.Rem | components/color-picker.tsx:245 | definition of JavaScript `%`: the remainder of truncating division; RemPeriodic and HueWrapsAround state it |
| JsNumber.Round | components/color-picker.tsx:281-283 | definition of `Math.round` as floor(x + 0.5); ByteOfUnit states its range |
| JsValue.Or | app/settings/page.tsx:40-41 | `a \|\| d` is a when a is truthy, d otherwise |
| JsValue.Truthy | app/profile/page.tsx:37-42 | definition of JavaScript truthiness: `null`, `false`, `0` and `""` are falsy; Or and FormDefaults state its use |
| JsValue.Property | app/profile/page.tsx:37-43 | reading a key of an object is its value, and absent otherwise |
| JsValue.IndexMapAt | app/settings/page.tsx:147-152 | spreading an array gives it index keys "0", "1", … with its items |
| JsValue.IndexMap | app/settings/page.tsx:147-152 | definition of the index keys an array spread gives; IndexMapAt states it |
| JsValue.Spread | app/profile/page.tsx:99 | definition of the properties `{...x}` copies; MergeFormWins and SettingsPage.SpreadOfObject state it |
| SettingsPage.SpreadOfObject | app/settings/page.tsx:149 | spreading an object copies exactly its fields |
| Browser.ClearSession | app/gallery/page.tsx:86-87 | removes exactly auth_token and user_data and keeps every other entry |
| Browser.HasItem | components/nav-header.tsx:27-30 | definition of `if (localStorage.getItem(key))`: stored and not empty; LoadUser and FetchAllModels state its use |
| Browser.IsOk | app/gallery/page.tsx:94 | definition of `response.ok`, a 2xx status; FetchAllModels and HandleSubmit state its use |

## Left out

- Three.js loaders (OBJ, PLY, STL, glTF) and the file parsing: they are foreign, and the loader's result is a parameter.
- A geometry without a position attribute: reading its vertices throws a TypeError (`positions.getX` at components/three-js-viewer.tsx:185, `positions.count` at line 227), which the catch at lines 127-131 turns into the fallback model. `Geometry` always has positions, so the model reaches the fallback only through a loader error.
- Bounding-box centring and `2/maxDim` scaling: the loaded root is taken as already placed.
- Raycasting and the pointer-to-NDC mapping: the hit is a parameter.
- Explode interpolation (`normalize`, `lerp` at 0.1): floating point with incremental motion.
- Canvas gradient drawing.
- Floating point: colours, hues and coordinates are exact reals, and `Math.round` is floor(x + 0.5).
- Case mapping is ASCII only; JavaScript and Python map all of Unicode.
- React lifecycle (effects, `useFrame` scheduling, listener add and remove), scene add and remove beyond the attached flag, toasts, and routing beyond the route a handler returns.
- Viewer-page `isFullscreen`, `handleViewModel` and `handleClearCache` (`sessionStorage.clear`): plain browser plumbing.
- The settings theme buttons: `setTheme` belongs to a foreign library; the theme enters only the saved object.
- ViewerPage.Number: reads decimal digits only; `Number` forms such as "2.0", "0x2" or "+2" are treated as not a number.
- NavHeader.DisplayName: name fields that are not strings count as empty.
- NavHeader.Initials: name fields that are not strings count as empty, by the same rule as DisplayName.
- handleResetCamera never reaches `ThreeJsViewer` except through the React key: the `onResetCamera` prop is unused there.
- MySQL cursor work, connection failures and the 500 answers they cause: a statement's effect is a parameter (`rowcount`) or an in-memory table. The one modelled exception is the `rsplit` IndexError.
- MySQL's case-insensitive collation: username and email comparisons are exact.
- bcrypt hashing and checking: `checkpw` is a parameter, and the stored hash is given.
- JWT encode and decode: `userFromToken` is a parameter.
- Sessions, issued tokens and the `last_login` update: they depend on the clock.
- `log_user_activity`: a logging side effect.
- `secure_filename` and `uuid4`: they are the `sanitize` and `uuid` parameters.
- `file.save`, `os.remove` and `send_file`: filesystem I/O. `os.path.exists` is the `onDisk` parameter.
- Auth.AuthManager.RegisterUser: new rows are taken as active, because schema_with_auth.sql is not part of this model.
- A JSON body that is not an object: unmodelled.
- JSON numbers are integers only: fractional numbers and NaN are not modelled, so `0` is the only falsy number.
- `register` with no body at all: the code does not check for it and raises a TypeError. HeritageApi.RegisterReply takes the parsed object.
- backend/evaluation.py, evaluation_simple.py, run_evaluation.py, run_evaluation_thesis.py, generate_report.py and check_database.py: performance scoring and reporting, not application logic.
- app/api-docs, app/auth and the home page: static markup or a redirect.
- app/folders/[id]/page.tsx: not part of this model.

## Findings

| source | as written | input that shows it | evidently intended | confidence | as-written member | corrected member |
|---|---|---|---|---|---|---|
| components/three-js-viewer.tsx:343 | the frame colour is `parseInt(color.replace("#", "0x"))`, which reads a 3-digit colour as a small number | "#abc" is painted as 0x000abc (r=0x00, g=0x0a, b=0xbc) | the CSS meaning of "#abc", #aabbcc, which the colour picker's own expansion uses | not executed | MeshViewer.ShortHexMisread | MeshViewer.ShortHexExpands |
| components/color-picker.tsx:82-85 | `handleCanvasMouseDown` is a `useCallback` with no dependencies, so it calls the first render's `handleCanvasMouseMove`, whose hue is 0 | hue set to 240, click at s=1, v=1: emits "#ff0000" | the colour of the current hue, "#0000ff" | not executed | ColorPicker.StaleHueScenario | ColorPicker.HexColorPicker.CanvasMouseDown |

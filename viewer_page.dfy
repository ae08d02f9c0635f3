/**
 * The viewer page (`/viewer?model=..&folder=..`): which demo model the query names,
 * and the page state the controls drive: the selected face, the colour map handed
 * to the 3D viewer, the colour picked, the explode slider, the display mode and the
 * counter used as the viewer's React key (changing it remounts the viewer, which
 * resets its camera).
 */
module ViewerPage {
  import opened Wrappers
  import Text
  import MeshViewer
  import ColorPicker

  // ---------------------------------------------------------------- the model table

  datatype ModelRecord = ModelRecord(id: int, name: string, folderId: int, url: string)

  const DEMO_URL: string := "/assets/3d/test.obj"

  /** The fifteen demo models, by id 1 to 15; they all point at the same file. */
  const MODELS: seq<ModelRecord> := [
    ModelRecord(1, "Parthenon Fragment.obj", 1, DEMO_URL),
    ModelRecord(2, "Athena Statue.ply", 1, DEMO_URL),
    ModelRecord(3, "Doric Column.stl", 1, DEMO_URL),
    ModelRecord(4, "Ancient Vase.obj", 1, DEMO_URL),
    ModelRecord(5, "Corinthian Capital.ply", 1, DEMO_URL),
    ModelRecord(6, "Augustus Statue.obj", 2, DEMO_URL),
    ModelRecord(7, "Roman Bust.ply", 2, DEMO_URL),
    ModelRecord(8, "Trajan Column Fragment.stl", 2, DEMO_URL),
    ModelRecord(9, "Sphinx Fragment.obj", 3, DEMO_URL),
    ModelRecord(10, "Pharaoh Mask.ply", 3, DEMO_URL),
    ModelRecord(11, "Hieroglyphic Panel.stl", 3, DEMO_URL),
    ModelRecord(12, "Anubis Statue.obj", 3, DEMO_URL),
    ModelRecord(13, "Scarab Artifact.ply", 3, DEMO_URL),
    ModelRecord(14, "Obelisk Fragment.stl", 3, DEMO_URL),
    ModelRecord(15, "Sarcophagus Detail.obj", 3, DEMO_URL)
  ]

  /** `Number(s)` for the strings a query parameter carries: surrounding white space is
      ignored, a blank string is 0, a run of decimal digits is its value; `None` is any
      other string (NaN, or a numeric form this model does not read). */
  function Number(s: string): (n: Option<int>)
    ensures n.Some? ==> n.value >= 0
  {
    var t := Text.Trim(s);
    if t == "" then Some(0)
    else if Text.AllDigits(t) then Some(Text.DecimalValue(t))
    else None
  }

  /** `Number(searchParams.get(name) || "1")`: a missing or empty parameter means 1. */
  function IdParam(param: Option<string>): Option<int>
  {
    Number(if param.Some? && param.value != "" then param.value else "1")
  }

  /** `modelData[modelId]`: the record with that id, `None` (undefined) for any other id. */
  function FindModel(id: Option<int>): (m: Option<ModelRecord>)
    ensures m.Some? <==> id.Some? && 1 <= id.value <= 15
    ensures m.Some? ==> m.value.id == id.value && m.value.url == DEMO_URL
    ensures m.Some? ==> m.value in MODELS
  {
    if id.Some? && 1 <= id.value <= 15 then Some(MODELS[id.value - 1]) else None
  }

  /** `folderNames[folderId]` */
  function FolderName(id: Option<int>): (name: Option<string>)
    ensures name.Some? <==> id.Some? && 1 <= id.value <= 3
  {
    if id == Some(1) then Some("Greek Artifacts")
    else if id == Some(2) then Some("Roman Sculptures")
    else if id == Some(3) then Some("Egyptian Collection")
    else None
  }

  /** Without a `model` parameter (or with an empty one) the page shows model 1. */
  lemma MissingModelIsFirst(param: Option<string>)
    requires param.None? || param == Some("")
    ensures FindModel(IdParam(param)) == Some(MODELS[0])
  {
    assert Text.Trim("1") == "1";
    assert Text.DecimalValue("1") == 1 by { assert "1"[..0] == ""; }
  }

  /** The decimal id of every demo model finds that model, whatever white space surrounds it. */
  lemma DecimalIdFindsModel(n: nat)
    requires 1 <= n <= 15
    ensures FindModel(IdParam(Some(Text.NatToDecimal(n)))) == Some(MODELS[n - 1])
  {
    var d := Text.NatToDecimal(n);
    Text.DecimalRoundTrip(n);
    assert !Text.IsJsWhitespace(d[0]) && !Text.IsJsWhitespace(d[|d| - 1]);
    assert Text.TrimStart(d) == d;
    assert Text.Trim(d) == d;
  }

  /** Any parameter that is not a number from 1 to 15 renders "Model Not Found". */
  lemma OutOfTableNotFound(param: string)
    requires param != ""
    requires Number(param).None? || Number(param).value == 0 || Number(param).value > 15
    ensures FindModel(IdParam(Some(param))).None?
  {
  }

  // ---------------------------------------------------------------- the page

  /** What the page renders. */
  datatype PageView =
    | NotFound
    | Shown(title: string, folderName: Option<string>, viewerKey: int, props: MeshViewer.ViewerProps)

  const INITIAL_COLOR: string := "#6E56CF"

  /** `ViewerPage`'s state. */
  class Page {
    /** The model and folder the query string names; fixed for the page's lifetime. */
    const model: Option<ModelRecord>
    const folderId: Option<int>

    var explodeAmount: real
    var selectedColor: string
    var selectedFace: Option<int>
    var colorsByFace: map<int, string>
    var showTriangles: bool
    var resetCameraKey: int

    /** The slider keeps the explode amount in [0, 3], the key only grows from 0, and every
        colour the page holds (picked or applied) is a non-empty string. */
    ghost predicate Valid()
      reads this
    {
      0.0 <= explodeAmount <= 3.0 && resetCameraKey >= 0 && selectedColor != ""
      && forall i :: i in colorsByFace ==> colorsByFace[i] != ""
    }

    constructor (modelParam: Option<string>, folderParam: Option<string>)
      ensures Valid()
      ensures model == FindModel(IdParam(modelParam)) && folderId == IdParam(folderParam)
      ensures explodeAmount == 0.0 && selectedColor == INITIAL_COLOR && selectedFace.None?
      ensures colorsByFace == map[] && !showTriangles && resetCameraKey == 0
    {
      model := FindModel(IdParam(modelParam));
      folderId := IdParam(folderParam);
      explodeAmount := 0.0;
      selectedColor := INITIAL_COLOR;
      selectedFace := None;
      colorsByFace := map[];
      showTriangles := false;
      resetCameraKey := 0;
    }

    /** The props handed to the 3D viewer. */
    function Props(): MeshViewer.ViewerProps
      reads this
      requires model.Some?
    {
      MeshViewer.ViewerProps(model.value.url, explodeAmount, colorsByFace, selectedFace, showTriangles)
    }

    function Render(): (v: PageView)
      reads this
      ensures v.NotFound? <==> model.None?
      ensures v.Shown? ==> v.title == model.value.name && v.viewerKey == resetCameraKey && v.props == Props()
    {
      if model.None? then NotFound
      else Shown(model.value.name, FolderName(folderId), resetCameraKey, Props())
    }

    /** "Apply Color" is disabled without a selection and in triangle view. */
    predicate ApplyColorEnabled()
      reads this
    {
      selectedFace.Some? && !showTriangles
    }

    /** "Reset All Colors" is disabled while no face has a colour. */
    predicate ResetColorsEnabled()
      reads this
    {
      |colorsByFace| > 0
    }

    /** The explode slider is disabled in triangle view. */
    predicate ExplodeSliderEnabled()
      reads this
    {
      !showTriangles
    }

    /** "Reset Explosion" is disabled when nothing is exploded and in triangle view. */
    predicate ResetExplosionEnabled()
      reads this
    {
      explodeAmount != 0.0 && !showTriangles
    }

    /** `handleFaceSelect`: the viewer's `onFaceSelect`. */
    method HandleFaceSelect(faceIndex: int)
      requires Valid()
      modifies this
      ensures Valid()
      ensures selectedFace == Some(faceIndex)
      ensures colorsByFace == old(colorsByFace) && selectedColor == old(selectedColor)
      ensures explodeAmount == old(explodeAmount) && showTriangles == old(showTriangles)
      ensures resetCameraKey == old(resetCameraKey)
    {
      selectedFace := Some(faceIndex);
    }

    /** `applyColorToFace`: the selected face gets the picked colour, replacing any it had;
        no other face changes. The handler itself does not look at the display mode. */
    method ApplyColorToFace()
      requires Valid()
      modifies this
      ensures Valid()
      ensures old(selectedFace).Some? ==>
        colorsByFace == old(colorsByFace)[old(selectedFace).value := old(selectedColor)]
        && ResetColorsEnabled()
      ensures old(selectedFace).None? ==> colorsByFace == old(colorsByFace)
      ensures selectedFace == old(selectedFace) && selectedColor == old(selectedColor)
      ensures explodeAmount == old(explodeAmount) && showTriangles == old(showTriangles)
      ensures resetCameraKey == old(resetCameraKey)
    {
      if selectedFace.Some? {
        colorsByFace := colorsByFace[selectedFace.value := selectedColor];
      }
    }

    /** `resetColors`: no colours and no selection, so both colour buttons are disabled. */
    method ResetColors()
      requires Valid()
      modifies this
      ensures Valid()
      ensures colorsByFace == map[] && selectedFace.None?
      ensures !ResetColorsEnabled() && !ApplyColorEnabled()
      ensures selectedColor == old(selectedColor) && explodeAmount == old(explodeAmount)
      ensures showTriangles == old(showTriangles) && resetCameraKey == old(resetCameraKey)
    {
      colorsByFace := map[];
      selectedFace := None;
    }

    /** `handleResetCamera`: the viewer's key moves on by one, so React mounts a new viewer. */
    method HandleResetCamera()
      requires Valid()
      modifies this
      ensures Valid()
      ensures resetCameraKey == old(resetCameraKey) + 1
      ensures model.Some? ==> Render().viewerKey != old(Render()).viewerKey
      ensures selectedFace == old(selectedFace) && colorsByFace == old(colorsByFace)
      ensures selectedColor == old(selectedColor) && explodeAmount == old(explodeAmount)
      ensures showTriangles == old(showTriangles)
    {
      resetCameraKey := resetCameraKey + 1;
    }

    /** The picker's `onChange`; the picker only reports non-empty `#` colours. */
    method SetSelectedColor(color: string)
      requires Valid() && color != ""
      modifies this
      ensures Valid()
      ensures selectedColor == color
      ensures selectedFace == old(selectedFace) && colorsByFace == old(colorsByFace)
      ensures explodeAmount == old(explodeAmount) && showTriangles == old(showTriangles)
      ensures resetCameraKey == old(resetCameraKey)
    {
      selectedColor := color;
    }

    /** "Face View" / "Triangle View". */
    method SetShowTriangles(triangles: bool)
      requires Valid()
      modifies this
      ensures Valid()
      ensures showTriangles == triangles
      ensures triangles ==> !ApplyColorEnabled() && !ExplodeSliderEnabled() && !ResetExplosionEnabled()
      ensures selectedFace == old(selectedFace) && colorsByFace == old(colorsByFace)
      ensures selectedColor == old(selectedColor) && explodeAmount == old(explodeAmount)
      ensures resetCameraKey == old(resetCameraKey)
    {
      showTriangles := triangles;
    }

    /** The explode slider's `onValueChange`; the slider's range is 0 to 3. */
    method SetExplodeAmount(amount: real)
      requires Valid() && 0.0 <= amount <= 3.0
      modifies this
      ensures Valid()
      ensures explodeAmount == amount
      ensures selectedFace == old(selectedFace) && colorsByFace == old(colorsByFace)
      ensures selectedColor == old(selectedColor) && showTriangles == old(showTriangles)
      ensures resetCameraKey == old(resetCameraKey)
    {
      explodeAmount := amount;
    }

    /** "Reset Explosion": the viewer shows the whole model again (unless in triangle view,
        where it already does). */
    method ResetExplosion()
      requires Valid()
      modifies this
      ensures Valid()
      ensures explodeAmount == 0.0 && !ResetExplosionEnabled()
      ensures model.Some? ==> MeshViewer.ModelVisible(Props())
      ensures selectedFace == old(selectedFace) && colorsByFace == old(colorsByFace)
      ensures selectedColor == old(selectedColor) && showTriangles == old(showTriangles)
      ensures resetCameraKey == old(resetCameraKey)
    {
      explodeAmount := 0.0;
    }
  }

  // ---------------------------------------------------------------- page and viewer together

  /** After a reset every face is drawn in the hover colour or the default colour. */
  lemma ResetShowsDefaults(i: int, hovered: Option<int>)
    ensures var c := MeshViewer.FaceColor(i, MeshViewer.Highlight(map[], None, hovered));
      (c == MeshViewer.HOVERED_COLOR <==> hovered == Some(i))
      && (c == MeshViewer.DEFAULT_COLOR <==> hovered != Some(i))
  {
  }

  /** Colours that come from the picker's canvas or slider are six-digit notation, which
      the viewer's per-frame update reads correctly even as written; only short colours
      typed into the hex field are misread. */
  lemma PickedColorsRenderAsWritten(h: real, s: real, v: real)
    requires 0.0 <= h && 0.0 <= s <= 1.0 && 0.0 <= v <= 1.0
    ensures MeshViewer.IsHexNotation(ColorPicker.HsvToHex(h, s, v), 6)
    ensures MeshViewer.FrameRgbAsWritten(ColorPicker.HsvToHex(h, s, v))
         == MeshViewer.FrameRgb(ColorPicker.HsvToHex(h, s, v))
  {
    ColorPicker.HsvToHexIsValid(h, s, v);
    MeshViewer.SixDigitAgrees(ColorPicker.HsvToHex(h, s, v));
  }

  /** The page's initial colour `#6E56CF` is six-digit notation too. */
  lemma InitialColorRendersAsWritten()
    ensures MeshViewer.IsHexNotation(INITIAL_COLOR, 6)
    ensures MeshViewer.FrameRgbAsWritten(INITIAL_COLOR) == MeshViewer.FrameRgb(INITIAL_COLOR)
  {
    assert MeshViewer.IsHexNotation(INITIAL_COLOR, 6);
    MeshViewer.SixDigitAgrees(INITIAL_COLOR);
  }
}

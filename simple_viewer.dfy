/**
 * The reference viewer (`components/three-js-viewer-simple.tsx`): instead of loading a
 * file it draws a fixed artifact of six square faces around the origin, one per
 * axis direction, each coloured from the page's colour map, lit by selection and
 * hover, and pushed outward by the explode amount.
 */
module SimpleViewer {
  import opened Wrappers
  import MeshViewer

  const FACE_FALLBACK: string := "#6E56CF"
  const SELECTED_EMISSIVE: string := "#333333"
  const HOVERED_EMISSIVE: string := "#222222"
  const NO_EMISSIVE: string := "#000000"

  /** Euler angles in quarter turns (a quarter turn is `Math.PI / 2`). */
  datatype QuarterTurns = QuarterTurns(x: int, y: int, z: int)

  /** One entry of the face table. */
  datatype Face = Face(position: MeshViewer.Vec3, rotation: QuarterTurns, color: string, id: nat)

  /** `colorsByFace[id] || "#6E56CF"` */
  function FaceColorOf(colorsByFace: map<int, string>, id: int): (c: string)
    ensures c != ""
    ensures id in colorsByFace && colorsByFace[id] != "" ==> c == colorsByFace[id]
    ensures !(id in colorsByFace && colorsByFace[id] != "") ==> c == FACE_FALLBACK
  {
    if id in colorsByFace && colorsByFace[id] != "" then colorsByFace[id] else FACE_FALLBACK
  }

  /** The unit direction each face sits in: top, bottom, right, left, front, back. */
  function Direction(id: nat): MeshViewer.Vec3
    requires id < 6
  {
    [MeshViewer.Vec3(0.0, 1.0, 0.0), MeshViewer.Vec3(0.0, -1.0, 0.0), MeshViewer.Vec3(1.0, 0.0, 0.0),
     MeshViewer.Vec3(-1.0, 0.0, 0.0), MeshViewer.Vec3(0.0, 0.0, 1.0), MeshViewer.Vec3(0.0, 0.0, -1.0)][id]
  }

  /** The face table `CulturalArtifactModel` builds on every render. */
  function Faces(colorsByFace: map<int, string>): (fs: seq<Face>)
    ensures |fs| == 6
    ensures forall i :: 0 <= i < 6 ==> fs[i].id == i
    ensures forall i :: 0 <= i < 6 ==> fs[i].color == FaceColorOf(colorsByFace, i)
    ensures forall i :: 0 <= i < 6 ==> fs[i].position == Direction(i)
  {
    [ Face(Direction(0), QuarterTurns(0, 0, 0), FaceColorOf(colorsByFace, 0), 0),
      Face(Direction(1), QuarterTurns(2, 0, 0), FaceColorOf(colorsByFace, 1), 1),
      Face(Direction(2), QuarterTurns(0, 0, 1), FaceColorOf(colorsByFace, 2), 2),
      Face(Direction(3), QuarterTurns(0, 0, -1), FaceColorOf(colorsByFace, 3), 3),
      Face(Direction(4), QuarterTurns(1, 0, 0), FaceColorOf(colorsByFace, 4), 4),
      Face(Direction(5), QuarterTurns(-1, 0, 0), FaceColorOf(colorsByFace, 5), 5) ]
  }

  /** `isSelected ? "#333333" : isHovered ? "#222222" : "#000000"` */
  function Emissive(id: int, selectedFace: Option<int>, hoveredFace: Option<int>): (e: string)
    ensures selectedFace == Some(id) ==> e == SELECTED_EMISSIVE
    ensures selectedFace != Some(id) && hoveredFace == Some(id) ==> e == HOVERED_EMISSIVE
    ensures selectedFace != Some(id) && hoveredFace != Some(id) ==> e == NO_EMISSIVE
  {
    if selectedFace == Some(id) then SELECTED_EMISSIVE
    else if hoveredFace == Some(id) then HOVERED_EMISSIVE
    else NO_EMISSIVE
  }

  /** Each coordinate `p + p * (explodeAmount * 0.5)`. */
  function Exploded(p: MeshViewer.Vec3, explodeAmount: real): MeshViewer.Vec3
  {
    var offset := explodeAmount * 0.5;
    MeshViewer.Vec3(p.x + p.x * offset, p.y + p.y * offset, p.z + p.z * offset)
  }

  /** A drawn face mesh: where it is, how it is turned, its colour and its emissive glow. */
  datatype Drawn = Drawn(id: nat, position: MeshViewer.Vec3, rotation: QuarterTurns, color: string, emissive: string)

  /** The group `CulturalArtifactModel` renders (the decorative cylinder aside). */
  function Render(props: MeshViewer.ViewerProps, hoveredFace: Option<int>): seq<Drawn>
  {
    var fs := Faces(props.colorsByFace);
    seq(6, i requires 0 <= i < 6 =>
      Drawn(fs[i].id, Exploded(fs[i].position, props.explodeAmount), fs[i].rotation, fs[i].color,
            Emissive(fs[i].id, props.selectedFace, hoveredFace)))
  }

  /** Six faces numbered 0 to 5, coloured from the map with the fallback, glowing by the
      selection-then-hover precedence, and each moved along its own direction by a factor
      of `1 + explodeAmount / 2`. */
  lemma RenderedFaces(props: MeshViewer.ViewerProps, hoveredFace: Option<int>)
    ensures |Render(props, hoveredFace)| == 6
    ensures forall i :: 0 <= i < 6 ==>
      var d := Render(props, hoveredFace)[i];
      && d.id == i
      && d.color == FaceColorOf(props.colorsByFace, i)
      && d.emissive == Emissive(i, props.selectedFace, hoveredFace)
      && d.position == MeshViewer.Vec3(Direction(i).x * (1.0 + props.explodeAmount / 2.0),
                                       Direction(i).y * (1.0 + props.explodeAmount / 2.0),
                                       Direction(i).z * (1.0 + props.explodeAmount / 2.0))
  {
    forall i | 0 <= i < 6
      ensures Exploded(Direction(i), props.explodeAmount) ==
        MeshViewer.Vec3(Direction(i).x * (1.0 + props.explodeAmount / 2.0),
                        Direction(i).y * (1.0 + props.explodeAmount / 2.0),
                        Direction(i).z * (1.0 + props.explodeAmount / 2.0))
    {
      ExplodeScales(Direction(i), props.explodeAmount);
    }
  }

  lemma ExplodeScales(p: MeshViewer.Vec3, explodeAmount: real)
    ensures Exploded(p, explodeAmount) ==
      MeshViewer.Vec3(p.x * (1.0 + explodeAmount / 2.0), p.y * (1.0 + explodeAmount / 2.0), p.z * (1.0 + explodeAmount / 2.0))
  {
    var k := explodeAmount * 0.5;
    assert explodeAmount / 2.0 == k;
    assert p.x + p.x * k == p.x * (1.0 + k);
    assert p.y + p.y * k == p.y * (1.0 + k);
    assert p.z + p.z * k == p.z * (1.0 + k);
    assert Exploded(p, explodeAmount) == MeshViewer.Vec3(p.x + p.x * k, p.y + p.y * k, p.z + p.z * k);
  }

  /** At most one face glows as selected, and it is the selected one. */
  lemma OneSelectedGlow(props: MeshViewer.ViewerProps, hoveredFace: Option<int>, i: nat)
    requires i < 6
    ensures Render(props, hoveredFace)[i].emissive == SELECTED_EMISSIVE <==> props.selectedFace == Some(i)
  {
  }

  /** `showTriangles` and `modelUrl` are accepted but change nothing that is drawn. */
  lemma TrianglesAndUrlIgnored(p1: MeshViewer.ViewerProps, p2: MeshViewer.ViewerProps, hoveredFace: Option<int>)
    requires p1.explodeAmount == p2.explodeAmount && p1.colorsByFace == p2.colorsByFace
    requires p1.selectedFace == p2.selectedFace
    ensures Render(p1, hoveredFace) == Render(p2, hoveredFace)
  {
  }

  // ---------------------------------------------------------------- handlers

  /** `onClick`: the face reports its own id to the page. */
  function OnClick(f: Face): int
  {
    f.id
  }

  /** `onPointerEnter` sets the hover to the face's id; `onPointerLeave` clears it. */
  function OnPointerEnter(f: Face): Option<int>
  {
    Some(f.id)
  }

  function OnPointerLeave(): Option<int>
  {
    None
  }

  /** Clicking face `i` selects `i`; entering it lights it (unless it is selected) and
      leaving it puts the glow back to the selection-only state. */
  lemma HandlersTrackFaces(props: MeshViewer.ViewerProps, i: nat)
    requires i < 6
    ensures OnClick(Faces(props.colorsByFace)[i]) == i
    ensures props.selectedFace != Some(i) ==>
      Render(props, OnPointerEnter(Faces(props.colorsByFace)[i]))[i].emissive == HOVERED_EMISSIVE
    ensures Render(props, OnPointerLeave())[i].emissive ==
      (if props.selectedFace == Some(i) then SELECTED_EMISSIVE else NO_EMISSIVE)
  {
  }
}

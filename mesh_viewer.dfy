/**
 * The 3D viewer (`components/three-js-viewer.tsx`): it loads a model by its file
 * extension, falls back to a built-in artifact when loading fails, cuts every mesh of
 * the model into single-triangle "face" meshes numbered in traversal order, colours
 * each face by a fixed precedence (explicit colour, selection, hover, default), tracks
 * the hovered face under the pointer and reports clicks on it.
 *
 * Geometry is over `real`; a vertex read that falls outside a buffer (JavaScript gives
 * `undefined`) is `None`. Such a corner is NaN in the face's own geometry, but the face
 * centre is built with `new Vector3(x, y, z)`, whose undefined arguments default to 0,
 * so in the centre a missing corner counts as the origin.
 */
module MeshViewer {
  import opened Wrappers
  import Text
  import JsNumber

  // ---------------------------------------------------------------- scene graph

  datatype Vec3 = Vec3(x: real, y: real, z: real)
  {
    function Plus(o: Vec3): Vec3
    {
      Vec3(x + o.x, y + o.y, z + o.z)
    }

    function Div(k: real): Vec3
      requires k != 0.0
    {
      Vec3(x / k, y / k, z / k)
    }
  }

  const ORIGIN: Vec3 := Vec3(0.0, 0.0, 0.0)

  /** An object's local position, rotation (Euler angles) and scale. */
  datatype Transform = Transform(position: Vec3, rotation: Vec3, scale: Vec3)

  const IDENTITY: Transform := Transform(ORIGIN, ORIGIN, Vec3(1.0, 1.0, 1.0))

  /** A buffer geometry's position attribute, with or without an index buffer. */
  datatype Geometry =
    | Indexed(index: seq<nat>, positions: seq<Vec3>)
    | NonIndexed(positions: seq<Vec3>)

  /** A node of the loaded scene graph. `geometry` is present exactly when the node is a
      mesh that has a geometry; groups and other nodes carry `None`. */
  datatype Object3D = Object3D(transform: Transform, geometry: Option<Geometry>, children: seq<Object3D>)

  /** A mesh met by the traversal, with its own local transform. */
  datatype SubMesh = SubMesh(geometry: Geometry, transform: Transform)

  /** `model.traverse(...)` restricted to meshes with a geometry: the node itself first,
      then its children in order (pre-order). */
  function Traverse(o: Object3D): seq<SubMesh>
    decreases o, 1
  {
    (if o.geometry.Some? then [SubMesh(o.geometry.value, o.transform)] else [])
    + TraverseAll(o.children)
  }

  function TraverseAll(cs: seq<Object3D>): seq<SubMesh>
    decreases cs, 0
  {
    if |cs| == 0 then [] else Traverse(cs[0]) + TraverseAll(cs[1..])
  }

  /** The cutting ignores the transform of every node that is not a mesh: two models that
      differ only in the root group's transform (the centring and scaling of lines
      111-119 is applied to the root) give the same meshes, hence the same faces. */
  lemma TraverseIgnoresGroupTransform(t1: Transform, t2: Transform, cs: seq<Object3D>)
    ensures Traverse(Object3D(t1, None, cs)) == Traverse(Object3D(t2, None, cs))
  {
  }

  // ---------------------------------------------------------------- vertex reads

  /** How many vertex slots the cutting loop walks: the index count of an indexed
      geometry, the position count otherwise. */
  function SlotCount(g: Geometry): nat
  {
    match g
    case Indexed(index, _) => |index|
    case NonIndexed(positions) => |positions|
  }

  /** The vertex the loop reads for slot `j`: through the index buffer when there is one.
      `None` when the read falls outside a buffer. */
  function VertexAt(g: Geometry, j: nat): Option<Vec3>
  {
    match g
    case Indexed(index, positions) =>
      if j < |index| && index[j] < |positions| then Some(positions[index[j]]) else None
    case NonIndexed(positions) =>
      if j < |positions| then Some(positions[j]) else None
  }

  /** The number of faces cut from a geometry: the loop `for (i = 0; i < n; i += 3)` runs
      once per started group of three slots, so a trailing partial group still makes a face. */
  function FaceCount(g: Geometry): (k: nat)
    ensures 3 * k >= SlotCount(g)
    ensures k > 0 ==> 3 * (k - 1) < SlotCount(g)
  {
    (SlotCount(g) + 2) / 3
  }

  /** The three vertices read for the face that starts at slot `i`. */
  function FaceVertices(g: Geometry, i: nat): seq<Option<Vec3>>
  {
    [VertexAt(g, i), VertexAt(g, i + 1), VertexAt(g, i + 2)]
  }

  /** `new THREE.Vector3(x, y, z)` of a corner read: undefined coordinates default to 0. */
  function Corner(v: Option<Vec3>): Vec3
  {
    v.GetOr(ORIGIN)
  }

  /** The running sum of the centre loop after its first `|vs|` steps. */
  function PartialSum(vs: seq<Option<Vec3>>): Vec3
  {
    if |vs| == 0 then ORIGIN else PartialSum(vs[..|vs| - 1]).Plus(Corner(vs[|vs| - 1]))
  }

  /** The centre of a face: the sum of its corners divided by 3, a missing corner
      counting as the origin. */
  function Centroid(vs: seq<Option<Vec3>>): Vec3
    requires |vs| == 3
  {
    Corner(vs[0]).Plus(Corner(vs[1])).Plus(Corner(vs[2])).Div(3.0)
  }

  /** The centre of a face lies inside the bounding box of its corners. */
  lemma CentroidInsideCorners(a: Vec3, b: Vec3, c: Vec3)
    ensures var m := Centroid([Some(a), Some(b), Some(c)]);
      JsNumber.Min3(a.x, b.x, c.x) <= m.x <= JsNumber.Max3(a.x, b.x, c.x)
      && JsNumber.Min3(a.y, b.y, c.y) <= m.y <= JsNumber.Max3(a.y, b.y, c.y)
      && JsNumber.Min3(a.z, b.z, c.z) <= m.z <= JsNumber.Max3(a.z, b.z, c.z)
  {
  }

  /** Moving a face moves its centre by the same amount. */
  lemma CentroidTranslates(a: Vec3, b: Vec3, c: Vec3, d: Vec3)
    ensures Centroid([Some(a.Plus(d)), Some(b.Plus(d)), Some(c.Plus(d))])
         == Centroid([Some(a), Some(b), Some(c)]).Plus(d)
  {
  }

  /** The centre does not depend on which corner comes first. */
  lemma CentroidRotates(vs: seq<Option<Vec3>>)
    requires |vs| == 3
    ensures Centroid([vs[1], vs[2], vs[0]]) == Centroid(vs)
  {
  }

  /** A corner read past a buffer adds nothing to the centre: it is as if that corner
      were at the origin. */
  lemma CentroidMissingCorner(vs: seq<Option<Vec3>>, j: nat)
    requires |vs| == 3 && j < 3 && vs[j].None?
    ensures Centroid(vs) == Centroid(vs[j := Some(ORIGIN)])
  {
  }

  /** The inner `j` loop: the three vertices of the face starting at slot `i`. */
  method ReadFaceVertices(g: Geometry, i: nat) returns (faceVertices: seq<Option<Vec3>>)
    ensures faceVertices == FaceVertices(g, i)
  {
    faceVertices := [];
    for j := 0 to 3
      invariant faceVertices == FaceVertices(g, i)[..j]
    {
      faceVertices := faceVertices + [VertexAt(g, i + j)];
    }
  }

  /** The `k` loop that sums the corners, followed by `divideScalar(3)`. */
  method FaceCenter(faceVertices: seq<Option<Vec3>>) returns (center: Vec3)
    requires |faceVertices| == 3
    ensures center == Centroid(faceVertices)
  {
    var sum := ORIGIN;
    for k := 0 to 3
      invariant sum == PartialSum(faceVertices[..k])
    {
      assert faceVertices[..k + 1][..k] == faceVertices[..k];
      sum := sum.Plus(Corner(faceVertices[k]));
    }
    assert faceVertices[..3] == faceVertices;
    PartialSumOfThree(faceVertices);
    center := sum.Div(3.0);
  }

  /** The loop's sum is always defined: the three corners, missing ones as the origin. */
  lemma PartialSumOfThree(vs: seq<Option<Vec3>>)
    requires |vs| == 3
    ensures PartialSum(vs) == Corner(vs[0]).Plus(Corner(vs[1])).Plus(Corner(vs[2]))
  {
    assert vs[..1][..0] == vs[..0] && vs[..2][..1] == vs[..1] && vs[..|vs| - 1] == vs[..2];
    assert PartialSum(vs[..0]) == ORIGIN;
    assert PartialSum(vs[..1]) == ORIGIN.Plus(Corner(vs[0]));
    assert PartialSum(vs[..2]) == PartialSum(vs[..1]).Plus(Corner(vs[1]));
    assert PartialSum(vs) == PartialSum(vs[..2]).Plus(Corner(vs[2]));
    assert ORIGIN.Plus(Corner(vs[0])) == Corner(vs[0]);
  }

  // ---------------------------------------------------------------- face colours

  const SELECTED_COLOR: string := "#ff6b6b"
  const HOVERED_COLOR: string := "#4ecdc4"
  const DEFAULT_COLOR: string := "#6e56cf"

  /** What decides a face's colour: the colours the user applied, the selected face (a
      prop) and the hovered face (the component's state). */
  datatype Highlight = Highlight(colorsByFace: map<int, string>, selectedFace: Option<int>, hoveredFace: Option<int>)

  /** `if (colorsByFace[index])`: an entry that is present and not empty. */
  predicate HasExplicitColor(colorsByFace: map<int, string>, index: int)
  {
    index in colorsByFace && colorsByFace[index] != ""
  }

  /** `getFaceColor`: an applied colour wins, then selection, then hover, then the default. */
  function FaceColor(index: int, h: Highlight): (color: string)
    ensures color != ""
    ensures HasExplicitColor(h.colorsByFace, index) ==> color == h.colorsByFace[index]
    ensures !HasExplicitColor(h.colorsByFace, index) ==>
      color in {SELECTED_COLOR, HOVERED_COLOR, DEFAULT_COLOR}
      && (color == SELECTED_COLOR <==> h.selectedFace == Some(index))
      && (color == HOVERED_COLOR <==> h.selectedFace != Some(index) && h.hoveredFace == Some(index))
  {
    if HasExplicitColor(h.colorsByFace, index) then h.colorsByFace[index]
    else if h.selectedFace == Some(index) then SELECTED_COLOR
    else if h.hoveredFace == Some(index) then HOVERED_COLOR
    else DEFAULT_COLOR
  }

  /** A face's colour depends only on its own entry and on whether it is the selected
      or the hovered one: recolouring, selecting or hovering another face leaves it alone. */
  lemma FaceColorIsLocal(index: int, h1: Highlight, h2: Highlight)
    requires (index in h1.colorsByFace) == (index in h2.colorsByFace)
    requires index in h1.colorsByFace ==> h1.colorsByFace[index] == h2.colorsByFace[index]
    requires (h1.selectedFace == Some(index)) == (h2.selectedFace == Some(index))
    requires (h1.hoveredFace == Some(index)) == (h2.hoveredFace == Some(index))
    ensures FaceColor(index, h1) == FaceColor(index, h2)
  {
  }

  /** Once a colour is applied to a face, selection and hover no longer show on it. */
  lemma AppliedColorShows(index: int, h: Highlight, c: string)
    requires c != ""
    ensures FaceColor(index, h.(colorsByFace := h.colorsByFace[index := c])) == c
  {
  }

  // ---------------------------------------------------------------- cutting into faces

  /** A face mesh: its number, its three vertices, the centre used by the explosion, its
      own transform (copied from the mesh it was cut from), that mesh's position and
      transform kept as `originalPosition` and `parentTransform`, and the colour its
      material was created with. */
  datatype FaceMesh = FaceMesh(
    faceIndex: nat,
    vertices: seq<Option<Vec3>>,
    faceCenter: Vec3,
    transform: Transform,
    originalPosition: Vec3,
    parentTransform: Transform,
    color: string)

  /** The face numbered `faceIndex`, cut from mesh `m` starting at slot `i`. */
  function MakeFace(faceIndex: nat, m: SubMesh, i: nat, h: Highlight): FaceMesh
  {
    var vs := FaceVertices(m.geometry, i);
    FaceMesh(faceIndex, vs, Centroid(vs), m.transform, m.transform.position, m.transform, FaceColor(faceIndex, h))
  }

  /** The faces of one mesh, numbered from `start`. */
  function MeshFaces(m: SubMesh, start: nat, h: Highlight): seq<FaceMesh>
  {
    seq(FaceCount(m.geometry), k requires 0 <= k < FaceCount(m.geometry) => MakeFace(start + k, m, 3 * k, h))
  }

  /** The number of faces cut from a sequence of meshes. */
  function FaceTotal(ms: seq<SubMesh>): nat
  {
    if |ms| == 0 then 0 else FaceTotal(ms[..|ms| - 1]) + FaceCount(ms[|ms| - 1].geometry)
  }

  /** The faces cut from a sequence of meshes, numbered on from one mesh to the next. */
  function AllFaces(ms: seq<SubMesh>, h: Highlight): seq<FaceMesh>
  {
    if |ms| == 0 then []
    else AllFaces(ms[..|ms| - 1], h) + MeshFaces(ms[|ms| - 1], FaceTotal(ms[..|ms| - 1]), h)
  }

  lemma {:induction false} AllFacesLength(ms: seq<SubMesh>, h: Highlight)
    ensures |AllFaces(ms, h)| == FaceTotal(ms)
  {
    if |ms| > 0 {
      AllFacesLength(ms[..|ms| - 1], h);
    }
  }

  /** Faces are numbered 0, 1, 2, ... in the order they appear, across all meshes. */
  lemma {:induction false} AllFacesNumbered(ms: seq<SubMesh>, h: Highlight)
    ensures forall i :: 0 <= i < |AllFaces(ms, h)| ==> AllFaces(ms, h)[i].faceIndex == i
  {
    if |ms| > 0 {
      var init := ms[..|ms| - 1];
      AllFacesNumbered(init, h);
      AllFacesLength(init, h);
    }
  }

  lemma {:induction false} FaceTotalPrefix(ms: seq<SubMesh>, m: nat)
    requires m <= |ms|
    ensures FaceTotal(ms[..m]) <= FaceTotal(ms)
    ensures m < |ms| ==> FaceTotal(ms[..m]) + FaceCount(ms[m].geometry) <= FaceTotal(ms)
    decreases |ms|
  {
    if m < |ms| {
      var init := ms[..|ms| - 1];
      if m < |ms| - 1 {
        assert init[..m] == ms[..m];
        assert init[m] == ms[m];
        FaceTotalPrefix(init, m);
      } else {
        assert init == ms[..m];
      }
    } else {
      assert ms[..m] == ms;
    }
  }

  /** Face `k` of mesh `m` sits at position `FaceTotal(ms[..m]) + k` and is cut from that
      mesh's slots `3k`, `3k+1`, `3k+2`, with that mesh's transform. */
  lemma {:induction false} AllFacesLocate(ms: seq<SubMesh>, h: Highlight, m: nat, k: nat)
    requires m < |ms| && k < FaceCount(ms[m].geometry)
    ensures FaceTotal(ms[..m]) + k < |AllFaces(ms, h)|
    ensures AllFaces(ms, h)[FaceTotal(ms[..m]) + k] == MakeFace(FaceTotal(ms[..m]) + k, ms[m], 3 * k, h)
    decreases |ms|, 1
  {
    if m < |ms| - 1 {
      AllFacesLocateEarlier(ms, h, m, k);
    } else {
      assert ms[..|ms| - 1] == ms[..m];
      AllFacesInBack(ms, h, k);
    }
  }

  /** The case of a mesh before the last: its faces keep their place once the last mesh's
      faces are appended. */
  lemma {:induction false} AllFacesLocateEarlier(ms: seq<SubMesh>, h: Highlight, m: nat, k: nat)
    requires m < |ms| - 1 && k < FaceCount(ms[m].geometry)
    ensures FaceTotal(ms[..m]) + k < |AllFaces(ms, h)|
    ensures AllFaces(ms, h)[FaceTotal(ms[..m]) + k] == MakeFace(FaceTotal(ms[..m]) + k, ms[m], 3 * k, h)
    decreases |ms|, 0
  {
    var init := ms[..|ms| - 1];
    assert init[..m] == ms[..m];
    assert init[m] == ms[m];
    AllFacesLocate(init, h, m, k);
    AllFacesInFront(ms, h, FaceTotal(ms[..m]) + k);
  }

  /** The faces of all meshes but the last come first, unchanged. */
  lemma AllFacesInFront(ms: seq<SubMesh>, h: Highlight, p: nat)
    requires |ms| > 0 && p < |AllFaces(ms[..|ms| - 1], h)|
    ensures p < |AllFaces(ms, h)|
    ensures AllFaces(ms, h)[p] == AllFaces(ms[..|ms| - 1], h)[p]
  {
    var front := AllFaces(ms[..|ms| - 1], h);
    var back := MeshFaces(ms[|ms| - 1], FaceTotal(ms[..|ms| - 1]), h);
    assert AllFaces(ms, h) == front + back;
  }

  /** Face `k` of the last mesh follows the faces of all the others. */
  lemma AllFacesInBack(ms: seq<SubMesh>, h: Highlight, k: nat)
    requires |ms| > 0 && k < FaceCount(ms[|ms| - 1].geometry)
    ensures FaceTotal(ms[..|ms| - 1]) + k < |AllFaces(ms, h)|
    ensures AllFaces(ms, h)[FaceTotal(ms[..|ms| - 1]) + k]
         == MakeFace(FaceTotal(ms[..|ms| - 1]) + k, ms[|ms| - 1], 3 * k, h)
  {
    AllFacesLastMesh(ms, h, k);
    MeshFaceAt(ms[|ms| - 1], FaceTotal(ms[..|ms| - 1]), h, k);
  }

  /** Past the faces of all meshes but the last come the last mesh's own. */
  lemma AllFacesLastMesh(ms: seq<SubMesh>, h: Highlight, k: nat)
    requires |ms| > 0 && k < FaceCount(ms[|ms| - 1].geometry)
    ensures FaceTotal(ms[..|ms| - 1]) + k < |AllFaces(ms, h)|
    ensures AllFaces(ms, h)[FaceTotal(ms[..|ms| - 1]) + k] == MeshFaces(ms[|ms| - 1], FaceTotal(ms[..|ms| - 1]), h)[k]
  {
    var front := AllFaces(ms[..|ms| - 1], h);
    var back := MeshFaces(ms[|ms| - 1], FaceTotal(ms[..|ms| - 1]), h);
    AllFacesLength(ms[..|ms| - 1], h);
    assert AllFaces(ms, h) == front + back;
    ConcatBack(front, back, k);
  }

  lemma ConcatBack<T>(a: seq<T>, b: seq<T>, k: nat)
    requires k < |b|
    ensures (a + b)[|a| + k] == b[k]
  {
  }

  lemma MeshFaceAt(m: SubMesh, start: nat, h: Highlight, k: nat)
    requires k < FaceCount(m.geometry)
    ensures k < |MeshFaces(m, start, h)|
    ensures MeshFaces(m, start, h)[k] == MakeFace(start + k, m, 3 * k, h)
  {
  }

  /** A well-formed indexed triangle list (index count a multiple of three, every index
      in range) gives one face per triangle, with the indexed corners and their mean as centre. */
  lemma IndexedTriangles(index: seq<nat>, positions: seq<Vec3>, k: nat)
    requires |index| % 3 == 0
    requires forall j :: 0 <= j < |index| ==> index[j] < |positions|
    requires k < |index| / 3
    ensures FaceCount(Indexed(index, positions)) == |index| / 3
    ensures FaceVertices(Indexed(index, positions), 3 * k)
         == [Some(positions[index[3 * k]]), Some(positions[index[3 * k + 1]]), Some(positions[index[3 * k + 2]])]
    ensures Centroid(FaceVertices(Indexed(index, positions), 3 * k))
         == positions[index[3 * k]].Plus(positions[index[3 * k + 1]]).Plus(positions[index[3 * k + 2]]).Div(3.0)
  {
  }

  /** A non-indexed triangle soup: face `k` is vertices `3k`, `3k+1`, `3k+2`. */
  lemma PlainTriangles(positions: seq<Vec3>, k: nat)
    requires |positions| % 3 == 0
    requires k < |positions| / 3
    ensures FaceCount(NonIndexed(positions)) == |positions| / 3
    ensures FaceVertices(NonIndexed(positions), 3 * k)
         == [Some(positions[3 * k]), Some(positions[3 * k + 1]), Some(positions[3 * k + 2])]
  {
  }

  /** When the slot count is not a multiple of three, the last face reads past the end:
      it still exists and its last corner is NaN, but its centre is defined: the sum of
      the corners that were read, divided by 3. */
  lemma TrailingPartialFace(g: Geometry)
    requires SlotCount(g) % 3 != 0
    ensures FaceCount(g) >= 1
    ensures VertexAt(g, 3 * (FaceCount(g) - 1) + 2).None?
    ensures var i := 3 * (FaceCount(g) - 1);
      Centroid(FaceVertices(g, i)) == Corner(VertexAt(g, i)).Plus(Corner(VertexAt(g, i + 1))).Div(3.0)
  {
  }

  /** Four plain vertices make two faces; the second reads only the fourth vertex, so its
      centre is a third of that vertex. */
  lemma TrailingCornerOfFour(v0: Vec3, v1: Vec3, v2: Vec3, v3: Vec3)
    ensures FaceCount(NonIndexed([v0, v1, v2, v3])) == 2
    ensures FaceVertices(NonIndexed([v0, v1, v2, v3]), 3) == [Some(v3), None, None]
    ensures Centroid(FaceVertices(NonIndexed([v0, v1, v2, v3]), 3)) == v3.Div(3.0)
  {
  }

  /** One mesh's turn in `extractFacesFromModel`: three slots at a time, each face
      numbered by the running counter `faceIndex`, which is returned advanced. */
  method CutMesh(child: SubMesh, faceIndex: nat, h: Highlight) returns (cut: seq<FaceMesh>, next: nat)
    ensures cut == MeshFaces(child, faceIndex, h)
    ensures next == faceIndex + FaceCount(child.geometry)
  {
    var g := child.geometry;
    var n := SlotCount(g);
    ghost var mine := MeshFaces(child, faceIndex, h);
    cut := [];
    next := faceIndex;
    var i := 0;
    ghost var k := 0;
    while i < n
      invariant i == 3 * k && k <= FaceCount(g)
      invariant next == faceIndex + k
      invariant cut == mine[..k]
    {
      var faceVertices := ReadFaceVertices(g, i);
      var center := FaceCenter(faceVertices);
      var faceMesh := FaceMesh(next, faceVertices, center, child.transform,
                               child.transform.position, child.transform, FaceColor(next, h));
      MeshFaceAt(child, faceIndex, h, k);
      assert faceMesh == mine[k];
      PrefixGrows(mine, k);
      cut := cut + [faceMesh];
      next := next + 1;
      i := i + 3;
      k := k + 1;
    }
    assert k == FaceCount(g);
    assert mine[..k] == mine;
  }

  /** `extractFacesFromModel`: walk the meshes in traversal order and cut each into faces,
      with one running face counter across meshes. */
  method ExtractFacesFromModel(model: Object3D, h: Highlight) returns (extractedFaces: seq<FaceMesh>)
    ensures extractedFaces == AllFaces(Traverse(model), h)
  {
    var meshes := Traverse(model);
    extractedFaces := [];
    var faceIndex: nat := 0;
    var m := 0;
    while m < |meshes|
      invariant 0 <= m <= |meshes|
      invariant faceIndex == FaceTotal(meshes[..m])
      invariant extractedFaces == AllFaces(meshes[..m], h)
    {
      var cut;
      cut, faceIndex := CutMesh(meshes[m], faceIndex, h);
      assert meshes[..m + 1][..m] == meshes[..m];
      assert meshes[..m + 1][m] == meshes[m];
      extractedFaces := extractedFaces + cut;
      m := m + 1;
    }
    assert meshes[..m] == meshes;
  }

  // ---------------------------------------------------------------- model loading

  /** The loader each extension selects (`glb` and `gltf` share one). */
  datatype Format = Obj | Ply | Stl | Gltf

  function ExtensionFormat(ext: string): (f: Option<Format>)
    ensures f.Some? <==> ext in {"obj", "ply", "stl", "glb", "gltf"}
  {
    if ext == "obj" then Some(Obj)
    else if ext == "ply" then Some(Ply)
    else if ext == "stl" then Some(Stl)
    else if ext == "glb" || ext == "gltf" then Some(Gltf)
    else None
  }

  /** `url.split(".").pop()?.toLowerCase()` chooses the loader; anything else throws
      "Unsupported file format". */
  function FormatOf(url: string): Option<Format>
  {
    ExtensionFormat(Text.ToLower(Text.AfterLast(url, '.')))
  }

  /** Only the text after the last dot counts, in any letter case. */
  lemma FormatOfExtension(path: string, ext: string)
    requires '.' !in ext
    ensures FormatOf(path + "." + ext) == ExtensionFormat(Text.ToLower(ext))
  {
    Text.AfterLastAppend(path, '.', ext);
  }

  /** A URL without a dot is read whole as its extension. */
  lemma FormatOfDotless(url: string)
    requires '.' !in url
    ensures FormatOf(url) == ExtensionFormat(Text.ToLower(url))
  {
    Text.AfterLastIsSuffix(url, '.');
  }

  /** What the chosen loader delivered, already centred and scaled; or a rejection. */
  datatype LoadOutcome = Loaded(root: Object3D) | LoadFailed

  /** The geometries of the fallback artifact: a box base, a cylinder body, a sphere head. */
  datatype FallbackParts = FallbackParts(base: Geometry, body: Geometry, head: Geometry)

  function At(p: Vec3): Transform
  {
    IDENTITY.(position := p)
  }

  /** `createFallbackModel`: a group holding the three parts, stacked on the y axis. */
  function FallbackModel(parts: FallbackParts): Object3D
  {
    Object3D(IDENTITY, None, [
      Object3D(At(Vec3(0.0, -1.5, 0.0)), Some(parts.base), []),
      Object3D(At(Vec3(0.0, -0.3, 0.0)), Some(parts.body), []),
      Object3D(At(Vec3(0.0, 1.2, 0.0)), Some(parts.head), [])])
  }

  /** The model shown after a load: the loader's result when the extension is supported
      and the loader succeeded, the fallback artifact in every other case. */
  function ShownModel(url: string, outcome: LoadOutcome, parts: FallbackParts): (o: Object3D)
    ensures FormatOf(url).None? || outcome.LoadFailed? ==> o == FallbackModel(parts)
    ensures FormatOf(url).Some? && outcome.Loaded? ==> o == outcome.root
  {
    if FormatOf(url).Some? && outcome.Loaded? then outcome.root else FallbackModel(parts)
  }

  /** The fallback's faces are those of the base, then the body, then the head, each
      carrying its part's position. */
  lemma FallbackFaces(parts: FallbackParts, h: Highlight)
    ensures Traverse(FallbackModel(parts)) == [
      SubMesh(parts.base, At(Vec3(0.0, -1.5, 0.0))),
      SubMesh(parts.body, At(Vec3(0.0, -0.3, 0.0))),
      SubMesh(parts.head, At(Vec3(0.0, 1.2, 0.0)))]
    ensures |AllFaces(Traverse(FallbackModel(parts)), h)|
         == FaceCount(parts.base) + FaceCount(parts.body) + FaceCount(parts.head)
  {
    var cs := FallbackModel(parts).children;
    var m0 := SubMesh(parts.base, At(Vec3(0.0, -1.5, 0.0)));
    var m1 := SubMesh(parts.body, At(Vec3(0.0, -0.3, 0.0)));
    var m2 := SubMesh(parts.head, At(Vec3(0.0, 1.2, 0.0)));
    assert TraverseAll([]) == [];
    assert Traverse(cs[0]) == [m0];
    assert Traverse(cs[1]) == [m1];
    assert Traverse(cs[2]) == [m2];
    assert cs[1..][1..][1..] == [];
    assert TraverseAll(cs[1..][1..]) == [m2];
    assert TraverseAll(cs[1..]) == [m1, m2];
    assert TraverseAll(cs) == [m0, m1, m2];
    var ms := [m0, m1, m2];
    AllFacesLength(ms, h);
    assert ms[..|ms| - 1] == [m0, m1] && [m0, m1][..1] == [m0] && [m0][..0] == [];
    assert FaceTotal([m0]) == FaceCount(m0.geometry);
    assert FaceTotal([m0, m1]) == FaceCount(m0.geometry) + FaceCount(m1.geometry);
    assert FaceTotal(ms) == FaceTotal([m0, m1]) + FaceCount(m2.geometry);
  }

  // ---------------------------------------------------------------- frame colour update

  /** An 8-bit sRGB colour. */
  datatype Rgb = Rgb(r: nat, g: nat, b: nat)

  /** `s.replace(c, with)` with a one-character pattern: the first occurrence only. */
  function ReplaceFirst(s: string, c: char, with: string): string
  {
    if |s| == 0 then s
    else if s[0] == c then with + s[1..]
    else [s[0]] + ReplaceFirst(s[1..], c, with)
  }

  /** `Color.setHex(hex)`: the channels are bits 16-23, 8-15 and 0-7 of the number taken
      as a 32-bit integer; NaN becomes 0. */
  function SetHex(hex: Option<int>): (c: Rgb)
    ensures c.r < 256 && c.g < 256 && c.b < 256
  {
    match hex
    case None => Rgb(0, 0, 0)
    case Some(v) =>
      var bits := v % 0x1_0000_0000;
      Rgb((bits / 0x1_0000) % 256, (bits / 0x100) % 256, bits % 256)
  }

  predicate IsHexNotation(color: string, digits: nat)
  {
    |color| == digits + 1 && color[0] == '#' && Text.AllHex(color[1..])
  }

  /** The colour a CSS hex string (`#rgb` or `#rrggbb`) names, as a material created
      with `color: "..."` reads it. */
  function CssRgb(color: string): (c: Option<Rgb>)
    ensures c.Some? <==> IsHexNotation(color, 3) || IsHexNotation(color, 6)
    ensures c.Some? ==> c.value.r < 256 && c.value.g < 256 && c.value.b < 256
  {
    if IsHexNotation(color, 6) then
      assert Text.AllHex(color[1..3]) && Text.AllHex(color[3..5]) && Text.AllHex(color[5..7]);
      Text.HexValueBound(color[1..3]);
      Text.HexValueBound(color[3..5]);
      Text.HexValueBound(color[5..7]);
      Some(Rgb(Text.HexValue(color[1..3]), Text.HexValue(color[3..5]), Text.HexValue(color[5..7])))
    else if IsHexNotation(color, 3) then
      assert Text.IsHexDigit(color[1]) && Text.IsHexDigit(color[2]) && Text.IsHexDigit(color[3]);
      Some(Rgb(17 * Text.HexDigitValue(color[1]), 17 * Text.HexDigitValue(color[2]), 17 * Text.HexDigitValue(color[3])))
    else None
  }

  /** The per-frame colour update as written:
      `setHex(Number.parseInt(newColor.replace("#", "0x")))`. */
  function FrameRgbAsWritten(color: string): Rgb
  {
    SetHex(JsNumber.ParseInt(ReplaceFirst(color, '#', "0x"), false))
  }

  /** The per-frame colour update as intended: the face keeps the colour its CSS string
      names; strings that are not hex notation go through `setHex` as before. */
  function FrameRgb(color: string): (c: Rgb)
    ensures IsHexNotation(color, 3) || IsHexNotation(color, 6) ==> CssRgb(color) == Some(c)
  {
    match CssRgb(color)
    case Some(c) => c
    case None => FrameRgbAsWritten(color)
  }

  /** The as-written update turns the short colour `#abc` into `0x000abc` (a near-black
      blue) instead of `#aabbcc`. */
  lemma ShortHexMisread()
    ensures FrameRgbAsWritten("#abc") == Rgb(0x00, 0x0a, 0xbc)
    ensures FrameRgb("#abc") == Rgb(0xaa, 0xbb, 0xcc)
  {
    ShortHexParsedAsNumber();
    ShortHexNamesLongColor();
  }

  /** `"#abc".replace("#", "0x")` is `0xabc`, which `parseInt` reads as the number 0xabc. */
  lemma ShortHexParsedAsNumber()
    ensures FrameRgbAsWritten("#abc") == Rgb(0x00, 0x0a, 0xbc)
  {
    ReplaceHashAbc();
    HexAbc();
    JsNumber.ParseHexLiteral("abc");
    var v := 0xabc % 0x1_0000_0000;
    assert v == 0xabc;
    assert (v / 0x1_0000) % 256 == 0x00 && (v / 0x100) % 256 == 0x0a && v % 256 == 0xbc;
  }

  lemma ReplaceHashAbc()
    ensures ReplaceFirst("#abc", '#', "0x") == "0x" + "abc"
  {
    assert "#abc"[0] == '#' && "#abc"[1..] == "abc";
  }

  lemma HexAbc()
    ensures Text.AllHex("abc") && Text.HexValue("abc") == 0xabc
  {
    assert Text.AllHex("abc");
    assert "abc"[..2] == "ab" && "ab"[..1] == "a" && "a"[..0] == "";
  }

  /** As CSS notation, `#abc` is the colour `#aabbcc`. */
  lemma ShortHexNamesLongColor()
    ensures FrameRgb("#abc") == Rgb(0xaa, 0xbb, 0xcc)
  {
    var s := "#abc";
    assert s[1..] == "abc";
    assert Text.AllHex("abc");
    assert IsHexNotation(s, 3);
    assert !IsHexNotation(s, 6);
  }

  lemma SplitChannels(r: nat, g: nat, b: nat)
    requires r < 256 && g < 256 && b < 256
    ensures var v := r * 0x1_0000 + g * 0x100 + b;
      v % 0x1_0000_0000 == v && (v / 0x1_0000) % 256 == r && (v / 0x100) % 256 == g && v % 256 == b
  {
    var v := r * 0x1_0000 + g * 0x100 + b;
    assert g * 0x100 + b < 0x1_0000;
    assert v / 0x1_0000 == r;
    assert v / 0x100 == r * 0x100 + g;
  }

  /** Six hex digits are three two-digit channels. */
  lemma SixDigitValue(d: string)
    requires |d| == 6 && Text.AllHex(d)
    ensures Text.AllHex(d[..2]) && Text.AllHex(d[2..4]) && Text.AllHex(d[4..])
    ensures Text.HexValue(d) == Text.HexValue(d[..2]) * 0x1_0000 + Text.HexValue(d[2..4]) * 0x100 + Text.HexValue(d[4..])
  {
    var a, b, c := d[..2], d[2..4], d[4..];
    assert Text.AllHex(a) && Text.AllHex(b) && Text.AllHex(c);
    assert d == a + (b + c);
    Text.HexValueConcat(b, c);
    Text.HexValueConcat(a, b + c);
    assert Text.Pow16(2) == 0x100 && Text.Pow16(4) == 0x1_0000;
  }

  /** For six-digit colours the as-written update reads the colour right. */
  lemma SixDigitAgrees(color: string)
    requires IsHexNotation(color, 6)
    ensures FrameRgbAsWritten(color) == FrameRgb(color)
  {
    var d := color[1..];
    assert color == ['#'] + d;
    assert ReplaceFirst(color, '#', "0x") == "0x" + d;
    JsNumber.ParseHexLiteral(d);
    SixDigitValue(d);
    Text.HexValueBound(d[..2]);
    Text.HexValueBound(d[2..4]);
    Text.HexValueBound(d[4..]);
    assert d[..2] == color[1..3] && d[2..4] == color[3..5] && d[4..] == color[5..7];
    SplitChannels(Text.HexValue(d[..2]), Text.HexValue(d[2..4]), Text.HexValue(d[4..]));
  }

  /** With the intended update, `#rgb` shows the same colour as `#rrggbb`. */
  lemma ShortHexExpands(color: string)
    requires IsHexNotation(color, 3)
    ensures IsHexNotation(['#', color[1], color[1], color[2], color[2], color[3], color[3]], 6)
    ensures FrameRgb(color)
         == FrameRgb(['#', color[1], color[1], color[2], color[2], color[3], color[3]])
  {
    var long := ['#', color[1], color[1], color[2], color[2], color[3], color[3]];
    assert Text.IsHexDigit(color[1]) && Text.IsHexDigit(color[2]) && Text.IsHexDigit(color[3]);
    assert IsHexNotation(long, 6);
    assert long[1..3] == [color[1], color[1]];
    assert long[3..5] == [color[2], color[2]];
    assert long[5..7] == [color[3], color[3]];
    TwoDigits(color[1], color[1]);
    TwoDigits(color[2], color[2]);
    TwoDigits(color[3], color[3]);
  }

  // ---------------------------------------------------------------- the component

  /** The props `ActualModel` receives from the page. */
  datatype ViewerProps = ViewerProps(
    modelUrl: string,
    explodeAmount: real,
    colorsByFace: map<int, string>,
    selectedFace: Option<int>,
    showTriangles: bool)

  /** What the component renders: a translucent grey cube while loading, otherwise the
      group holding the model (visible or not) and the face meshes attached to it. */
  datatype View =
    | Placeholder
    | Scene(model: Option<Object3D>, modelVisible: bool, attachedFaces: seq<FaceMesh>)

  /** `showTriangles || explodeAmount === 0` */
  predicate ModelVisible(props: ViewerProps)
  {
    props.showTriangles || props.explodeAmount == 0.0
  }

  /** The colour of each face after a frame, as the component computes it: the face's
      colour string goes through `setHex(parseInt(color.replace("#", "0x")))`. */
  function FrameColors(faces: seq<FaceMesh>, h: Highlight): (cs: seq<Rgb>)
    ensures |cs| == |faces|
  {
    seq(|faces|, i requires 0 <= i < |faces| => FrameRgbAsWritten(FaceColor(faces[i].faceIndex, h)))
  }

  /** The colour of each face after a frame with the intended reading of hex notation. */
  function FrameColorsIntended(faces: seq<FaceMesh>, h: Highlight): (cs: seq<Rgb>)
    ensures |cs| == |faces|
  {
    seq(|faces|, i requires 0 <= i < |faces| => FrameRgb(FaceColor(faces[i].faceIndex, h)))
  }

  /** The highlight colours are six-digit notation. */
  lemma HighlightColorsSixDigit()
    ensures IsHexNotation(SELECTED_COLOR, 6) && IsHexNotation(HOVERED_COLOR, 6) && IsHexNotation(DEFAULT_COLOR, 6)
  {
    assert SELECTED_COLOR[1..] == "ff6b6b";
    assert HOVERED_COLOR[1..] == "4ecdc4";
    assert DEFAULT_COLOR[1..] == "6e56cf";
  }

  /** While every applied colour is six-digit notation, the frame paints every face as
      intended. */
  lemma FrameColorsAgree(faces: seq<FaceMesh>, h: Highlight)
    requires forall k :: HasExplicitColor(h.colorsByFace, k) ==> IsHexNotation(h.colorsByFace[k], 6)
    ensures FrameColors(faces, h) == FrameColorsIntended(faces, h)
  {
    HighlightColorsSixDigit();
    forall i | 0 <= i < |faces|
      ensures FrameColors(faces, h)[i] == FrameColorsIntended(faces, h)[i]
    {
      SixDigitAgrees(FaceColor(faces[i].faceIndex, h));
    }
  }

  /** A face whose applied colour is `#abc` is painted `0x000abc` by the frame, where the
      intended reading paints it `#aabbcc`. */
  lemma FrameShortHexMisread(faces: seq<FaceMesh>, h: Highlight, i: nat)
    requires i < |faces| && faces[i].faceIndex in h.colorsByFace && h.colorsByFace[faces[i].faceIndex] == "#abc"
    ensures FrameColors(faces, h)[i] == Rgb(0x00, 0x0a, 0xbc)
    ensures FrameColorsIntended(faces, h)[i] == Rgb(0xaa, 0xbb, 0xcc)
  {
    ShortHexMisread();
  }

  /** One more face's colour extends the colours worked out so far. */
  lemma FrameColorsExtend(faces: seq<FaceMesh>, h: Highlight, i: nat, colors: seq<Rgb>, c: Rgb)
    requires i < |faces| && colors == FrameColors(faces, h)[..i]
    requires c == FrameRgbAsWritten(FaceColor(faces[i].faceIndex, h))
    ensures colors + [c] == FrameColors(faces, h)[..i + 1]
  {
    var all := FrameColors(faces, h);
    assert all[i] == c;
    PrefixGrows(all, i);
  }

  lemma PrefixGrows<T>(s: seq<T>, i: nat)
    requires i < |s|
    ensures s[..i] + [s[i]] == s[..i + 1]
  {
  }

  /** `ActualModel`: the component's state, its effects and its event handlers. */
  class ActualModel {
    var hoveredFace: Option<int>
    var loadedModel: Option<Object3D>
    var faces: seq<FaceMesh>
    var loading: bool
    /** The canvas element's `style.cursor`. */
    var cursor: string
    /** Whether the face meshes are children of the rendered group. */
    var facesAttached: bool
    /** Each face material's colour as of the last frame. */
    var faceColors: seq<Rgb>

    /** Faces are numbered by their position, and there are none before a model is loaded. */
    ghost predicate Valid()
      reads this
    {
      (forall i :: 0 <= i < |faces| ==> faces[i].faceIndex == i)
      && (loadedModel.None? ==> faces == [])
    }

    function HighlightOf(props: ViewerProps): Highlight
      reads this`hoveredFace
    {
      Highlight(props.colorsByFace, props.selectedFace, hoveredFace)
    }

    constructor ()
      ensures Valid()
      ensures hoveredFace.None? && loadedModel.None? && faces == [] && loading
      ensures cursor == "" && !facesAttached && faceColors == []
    {
      hoveredFace := None;
      loadedModel := None;
      faces := [];
      loading := true;
      cursor := "";
      facesAttached := false;
      faceColors := [];
    }

    /** The load effect starting for a new URL. */
    method BeginLoad()
      modifies this
      ensures loading
      ensures hoveredFace == old(hoveredFace) && loadedModel == old(loadedModel) && faces == old(faces)
      ensures cursor == old(cursor) && facesAttached == old(facesAttached) && faceColors == old(faceColors)
    {
      loading := true;
    }

    /** The load effect finishing. Whatever the outcome, the shown model is stored, cut
        into faces and loading ends; nothing checks that `url` is still the current one. */
    method FinishLoad(props: ViewerProps, outcome: LoadOutcome, parts: FallbackParts)
      modifies this
      ensures Valid()
      ensures !loading
      ensures loadedModel == Some(ShownModel(props.modelUrl, outcome, parts))
      ensures faces == AllFaces(Traverse(loadedModel.value), HighlightOf(props))
      ensures hoveredFace == old(hoveredFace) && cursor == old(cursor)
      ensures facesAttached == old(facesAttached) && faceColors == old(faceColors)
    {
      var model := ShownModel(props.modelUrl, outcome, parts);
      loading := false;
      loadedModel := Some(model);
      faces := ExtractFacesFromModel(model, HighlightOf(props));
      AllFacesNumbered(Traverse(model), HighlightOf(props));
    }

    /** The effect on `[faces, showTriangles]`: faces are attached to the group outside the
        triangle view and detached in it; while loading there is no group to attach to. */
    method SyncFaces(props: ViewerProps)
      modifies this
      ensures facesAttached == (if loading then old(facesAttached) else !props.showTriangles)
      ensures hoveredFace == old(hoveredFace) && loadedModel == old(loadedModel) && faces == old(faces)
      ensures loading == old(loading) && cursor == old(cursor) && faceColors == old(faceColors)
    {
      if !loading {
        facesAttached := !props.showTriangles;
      }
    }

    /** `handlePointerMove`. `hit` is the position in `faces` of the nearest face the
        pointer ray meets, if any. Ignored while loading or in the triangle view. */
    method PointerMove(props: ViewerProps, hit: Option<nat>)
      requires Valid()
      requires hit.Some? ==> hit.value < |faces|
      modifies this
      ensures Valid()
      ensures loading || props.showTriangles ==> hoveredFace == old(hoveredFace) && cursor == old(cursor)
      ensures !loading && !props.showTriangles && hit.Some? ==> hoveredFace == Some(hit.value) && cursor == "pointer"
      ensures !loading && !props.showTriangles && hit.None? ==> hoveredFace.None? && cursor == "auto"
      ensures loadedModel == old(loadedModel) && faces == old(faces) && loading == old(loading)
      ensures facesAttached == old(facesAttached) && faceColors == old(faceColors)
    {
      if loading || props.showTriangles {
        return;
      }
      if hit.Some? {
        hoveredFace := Some(faces[hit.value].faceIndex);
        cursor := "pointer";
      } else {
        hoveredFace := None;
        cursor := "auto";
      }
    }

    /** `handlePointerDown`: the face reported to `onFaceSelect`, if any. */
    method PointerDown(props: ViewerProps) returns (selected: Option<int>)
      ensures selected.Some? <==> hoveredFace.Some? && !props.showTriangles
      ensures selected.Some? ==> selected == hoveredFace
    {
      if hoveredFace.Some? && !props.showTriangles {
        selected := hoveredFace;
      } else {
        selected := None;
      }
    }

    /** The colour half of `useFrame`: every face's material takes the colour
        `getFaceColor` gives now (the explosion half is not modelled). */
    method Frame(props: ViewerProps)
      modifies this
      ensures faceColors == FrameColors(faces, HighlightOf(props))
      ensures hoveredFace == old(hoveredFace) && loadedModel == old(loadedModel) && faces == old(faces)
      ensures loading == old(loading) && cursor == old(cursor) && facesAttached == old(facesAttached)
    {
      var h := HighlightOf(props);
      var fs := faces;
      var colors: seq<Rgb> := [];
      for i := 0 to |fs|
        invariant colors == FrameColors(fs, h)[..i]
        invariant unchanged(this)
      {
        var c := FrameRgbAsWritten(FaceColor(fs[i].faceIndex, h));
        FrameColorsExtend(fs, h, i, colors, c);
        colors := colors + [c];
      }
      assert FrameColors(fs, h)[..|fs|] == FrameColors(fs, h);
      faceColors := colors;
    }

    function Render(props: ViewerProps): View
      reads this
    {
      if loading then Placeholder
      else Scene(loadedModel, ModelVisible(props), if facesAttached then faces else [])
    }
  }

  /** After the face effect has run: the triangle view shows the original model alone;
      an exploded view shows the faces alone; at zero explosion both are drawn. */
  lemma ViewModes(v: ActualModel, props: ViewerProps)
    requires !v.loading && v.facesAttached == !props.showTriangles
    ensures v.Render(props).Scene?
    ensures props.showTriangles ==> v.Render(props).modelVisible && v.Render(props).attachedFaces == []
    ensures !props.showTriangles && props.explodeAmount != 0.0 ==>
      !v.Render(props).modelVisible && v.Render(props).attachedFaces == v.faces
    ensures !props.showTriangles && props.explodeAmount == 0.0 ==>
      v.Render(props).modelVisible && v.Render(props).attachedFaces == v.faces
  {
  }

  /** After a frame, the hovered face shows the hover colour unless it is selected or has
      a colour of its own, and a selected face shows the selection colour unless it has
      a colour of its own. */
  lemma FrameShowsHighlight(faces: seq<FaceMesh>, h: Highlight, i: nat)
    requires i < |faces|
    ensures var f := faces[i].faceIndex;
      !HasExplicitColor(h.colorsByFace, f) && h.selectedFace == Some(f) ==>
        FrameColors(faces, h)[i] == Rgb(0xff, 0x6b, 0x6b)
    ensures var f := faces[i].faceIndex;
      !HasExplicitColor(h.colorsByFace, f) && h.selectedFace != Some(f) && h.hoveredFace == Some(f) ==>
        FrameColors(faces, h)[i] == Rgb(0x4e, 0xcd, 0xc4)
  {
    HighlightRgb();
  }

  /** The frame paints the selection and hover colours as the channels they name. */
  lemma HighlightRgb()
    ensures FrameRgbAsWritten(SELECTED_COLOR) == Rgb(0xff, 0x6b, 0x6b)
    ensures FrameRgbAsWritten(HOVERED_COLOR) == Rgb(0x4e, 0xcd, 0xc4)
  {
    HighlightColorsSixDigit();
    SixDigitAgrees(SELECTED_COLOR);
    SixDigitAgrees(HOVERED_COLOR);
    SixDigit(SELECTED_COLOR, 0xff, 0x6b, 0x6b);
    SixDigit(HOVERED_COLOR, 0x4e, 0xcd, 0xc4);
  }

  /** The intended frame colour of a `#rrggbb` string, channel by channel. */
  lemma SixDigit(color: string, r: nat, g: nat, b: nat)
    requires IsHexNotation(color, 6)
    requires 16 * Text.HexDigitValue(color[1]) + Text.HexDigitValue(color[2]) == r
    requires 16 * Text.HexDigitValue(color[3]) + Text.HexDigitValue(color[4]) == g
    requires 16 * Text.HexDigitValue(color[5]) + Text.HexDigitValue(color[6]) == b
    ensures FrameRgb(color) == Rgb(r, g, b)
  {
    assert color[1..3] == [color[1], color[2]];
    assert color[3..5] == [color[3], color[4]];
    assert color[5..7] == [color[5], color[6]];
    TwoDigits(color[1], color[2]);
    TwoDigits(color[3], color[4]);
    TwoDigits(color[5], color[6]);
  }

  lemma TwoDigits(a: char, b: char)
    requires Text.IsHexDigit(a) && Text.IsHexDigit(b)
    ensures Text.AllHex([a, b])
    ensures Text.HexValue([a, b]) == 16 * Text.HexDigitValue(a) + Text.HexDigitValue(b)
  {
    assert [a, b][..1] == [a];
    assert [a][..0] == [];
    assert Text.AllHex([a]);
    assert Text.HexValue([a]) == Text.HexValue([]) * 16 + Text.HexDigitValue(a);
    assert Text.HexValue([a, b]) == Text.HexValue([a]) * 16 + Text.HexDigitValue(b);
  }
}

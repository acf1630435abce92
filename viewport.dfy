/**
 * The ViewportPerspective component without its Unity plumbing: four corner
 * handles in clip space, the selection and hover state driven by input
 * steps, the cached homography behind a dirty flag, and loading and saving
 * the corners.
 *
 * Everything Unity would be asked (input, the camera's viewport mapping, the
 * material, the PlayerPrefs store, the streaming-assets folder) arrives as a
 * parameter; what would be written to a store is returned.
 */
module Viewport {
  import opened Vectors
  import Wrappers
  import opened TextTokens
  import opened Interaction
  import opened CornerPersistence
  import LinearSystems
  import HomographyMath

  /** Where runtime settings live between sessions. */
  datatype SerializationMethod = PlayerPrefs | StreamingAssets | NoSerialization

  /** The blit material as OnRenderImage finds it. */
  datatype MaterialState =
    | ShaderMissing                           // no material, and the shader cannot be found
    | Created                                 // no material yet; TryCreateBlitMaterial makes one
    | Existing(hasMatrixProperty: bool)       // a material from an earlier frame

  /** One Update call's keys, plus the interaction step it may run. */
  datatype Frame = Frame(
    hotkeyReleased: bool,     // GetKeyUp(interactable hotkey)
    commandHeld: bool,        // left or right command held
    resetPressed: bool,       // GetKeyDown(reset hotkey)
    tabPressed: bool,         // GetKeyDown(Tab)
    leftShift: bool,          // GetKey(LeftShift), the only shift Tab looks at
    input: InputStep)

  /** The unit square the homography maps from, in the corner order of the component. */
  const SourcePoints: seq<Vec2> := [Vec2(0.0, 0.0), Vec2(0.0, 1.0), Vec2(1.0, 1.0), Vec2(1.0, 0.0)]

  /** The corners of an unwarped view: lower-left, upper-left, upper-right, lower-right in clip space. */
  const ResetCorners: seq<Vec2> := [Vec2(-1.0, -1.0), Vec2(-1.0, 1.0), Vec2(1.0, 1.0), Vec2(1.0, -1.0)]

  const SaveKeyBase: string := "ViewportPerspective"

  /** The type name that names the component's streaming-assets folder. */
  const TypeName: string := "ViewportPerspective"

  /** GetUniqueSaveKey, with the GUID passed in. */
  function UniqueSaveKey(guid: string): (key: string)
    ensures |key| == |SaveKeyBase| + 1 + |guid|
    ensures key[..|SaveKeyBase| + 1] == SaveKeyBase + " "
    ensures key[|SaveKeyBase| + 1..] == guid
  {
    SaveKeyBase + " " + guid
  }

  /** The reset corners are the unit square moved to clip space, so a reset view is unwarped. */
  lemma ResetIsSourceInClipSpace()
    ensures forall c :: 0 <= c < 4 ==> ResetCorners[c] == ToClip(SourcePoints[c])
  {
  }

  /**
   * What OnRenderImage puts in the matrix for the given corners: a matrix of
   * FindHomography's shape that, whenever elimination finds a pivot on every
   * diagonal cell, maps the unit square onto the corners.
   */
  ghost predicate Warps(T: Matrix4x4, corners: seq<Vec2>)
    requires |corners| == 4
  {
    HomographyMath.IsPlacement(T)
    && (LinearSystems.DiagonalPivots(HomographyMath.Forward(HomographyMath.BuildSystem(SourcePoints, corners), 9).pivots, 8) ==>
          HomographyMath.Fits(T, SourcePoints, corners))
  }

  class ViewportPerspective {
    var corners: array<Vec2>      // clip space, (-1,-1) to (1,1)
    var isDirty: bool
    var matrix: Matrix4x4
    var selectedIndex: int
    var hoveredIndex: int
    var interactable: bool
    var serialization: SerializationMethod
    var saveKey: string
    const name: string            // the game object's name

    /** Four corners, and selection and hover each a corner or -1. */
    predicate Valid()
      reads this
    {
      corners.Length == 4 && -1 <= selectedIndex <= 3 && -1 <= hoveredIndex <= 3
    }

    /** The field initialisers of a newly added component. */
    constructor (name: string)
      ensures Valid() && fresh(corners)
      ensures corners[..] == [Zero, Zero, Zero, Zero]
      ensures isDirty && matrix == ZeroMatrix && selectedIndex == -1 && hoveredIndex == -1
      ensures !interactable && serialization == PlayerPrefs && saveKey == "" && this.name == name
    {
      corners := new Vec2[4](_ => Zero);
      isDirty := true;
      matrix := ZeroMatrix;
      selectedIndex := -1;
      hoveredIndex := -1;
      interactable := false;
      serialization := PlayerPrefs;
      saveKey := "";
      this.name := name;
    }

    /** Back to the unwarped corners, and the matrix is due for recomputation. */
    method Reset()
      requires Valid()
      modifies corners, this`isDirty
      ensures Valid()
      ensures corners[..] == ResetCorners && isDirty
    {
      corners[0] := Vec2(-1.0, -1.0);
      corners[1] := Vec2(-1.0, 1.0);
      corners[2] := Vec2(1.0, 1.0);
      corners[3] := Vec2(1.0, -1.0);
      isDirty := true;
    }

    /** Corner `index` in viewport space, (0,0) for an index outside 0..3. */
    function GetCorner(index: int): (p: Vec2)
      requires Valid()
      reads this, corners
      ensures index < 0 || index > 3 ==> p == Zero
      ensures 0 <= index <= 3 ==> ToClip(p) == corners[index]
    {
      CornerInViewport(corners[..], index)
    }

    /** Corner `index` moved to the viewport position p; an index outside 0..3 changes nothing. */
    method SetCorner(index: int, p: Vec2)
      requires Valid()
      modifies corners, this`isDirty
      ensures Valid()
      ensures 0 <= index <= 3 ==> corners[..] == old(corners[..])[index := ToClip(p)] && isDirty && GetCorner(index) == p
      ensures index < 0 || index > 3 ==> corners[..] == old(corners[..]) && isDirty == old(isDirty)
    {
      if index < 0 || index > 3 {
        return;
      }
      corners[index] := ToClip(p);
      isDirty := true;
      ViewportClipRoundTrip(p);
    }

    /** The `interactable` setter: switching off at runtime drops the selection. */
    method SetInteractable(value: bool, isPlaying: bool)
      requires Valid()
      modifies this`interactable, this`selectedIndex
      ensures Valid()
      ensures interactable == value
      ensures selectedIndex == if isPlaying && !value then -1 else old(selectedIndex)
    {
      interactable := value;
      if !isPlaying {
        return;
      }
      if !interactable {
        selectedIndex := -1;
      }
    }

    /** The Tab branch of Update: cycle the selection, or pick the hovered corner. */
    method CycleSelection(leftShift: bool)
      requires Valid()
      modifies this`selectedIndex
      ensures Valid()
      ensures selectedIndex == TabSelection(old(selectedIndex), hoveredIndex, leftShift)
    {
      TabSelectionCycles(selectedIndex, hoveredIndex, leftShift);
      if selectedIndex != -1 {
        selectedIndex := selectedIndex + if leftShift then -1 else 1;
        selectedIndex := TruncateToInt(Repeat(selectedIndex as real, 4.0));
      } else if hoveredIndex != -1 {
        selectedIndex := hoveredIndex;
      }
    }

    /**
     * The corner under the pointer: the nearest local corner, measured in
     * clip space, unless a sibling view on the same display has a corner
     * nearer than that, measured in its own viewport space.
     */
    method HitTest(pointer: Vec2, siblings: seq<Sibling>) returns (index: int)
      requires Valid() && SiblingsValid(siblings)
      ensures index == HitTestSpec(corners[..], pointer, siblings)
      ensures -1 <= index <= 3
    {
      HitTestOutcome(corners[..], pointer, siblings);
      var cornerIndex := -1;
      var hit := ToClip(pointer);
      var minDist := FarAway;
      for c := 0 to corners.Length
        invariant Candidate(cornerIndex, minDist) == Nearest(corners[..c], hit)
      {
        assert corners[..c + 1][..c] == corners[..c];
        var dist := SqrDistance(corners[c], hit);
        if dist < minDist {
          minDist := dist;
          cornerIndex := c;
        }
      }
      assert corners[..corners.Length] == corners[..];
      for k := 0 to |siblings|
        invariant forall l :: 0 <= l < k ==> !Blocks(siblings[l], minDist)
      {
        var sibling := siblings[k];
        if InUnitRect(sibling.pointer) {
          for c := 0 to corners.Length
            invariant forall e :: 0 <= e < c ==> SqrDistance(CornerInViewport(sibling.corners, e), sibling.pointer) >= minDist
          {
            var corner := CornerInViewport(sibling.corners, c);
            if SqrDistance(corner, sibling.pointer) < minDist {
              assert Blocks(siblings[k], minDist);
              return -1;
            }
          }
        }
      }
      return cornerIndex;
    }

    /**
     * One interaction step: hover from the hit test, selection on mouse down,
     * and the selected corner dragged or nudged while the mouse or an arrow
     * key is held, which also marks the matrix dirty.
     */
    method UpdateInteraction(input: InputStep, siblings: seq<Sibling>)
      requires Valid() && SiblingsValid(siblings)
      modifies corners, this`hoveredIndex, this`selectedIndex, this`isDirty
      ensures Valid()
      ensures hoveredIndex == HitTestSpec(old(corners[..]), input.pointer, siblings)
      ensures selectedIndex == if input.mouseDown then hoveredIndex else old(selectedIndex)
      ensures var moves := selectedIndex != -1 && (input.mouseHeld || input.arrowHeld);
        && corners[..] == (if moves then old(corners[..])[selectedIndex := DragOrNudge(old(corners[..])[selectedIndex], input)]
                           else old(corners[..]))
        && isDirty == (old(isDirty) || moves)
    {
      hoveredIndex := HitTest(input.pointer, siblings);
      if input.mouseDown {
        selectedIndex := hoveredIndex;
      }
      if selectedIndex != -1 && (input.mouseHeld || input.arrowHeld) {
        corners[selectedIndex] := DragOrNudge(corners[selectedIndex], input);
        isDirty := true;
      }
    }

    /**
     * Update: at runtime, the hotkey (without command) toggles interaction,
     * and while interactable the reset key, Tab and the interaction step run
     * in that order.
     */
    method Update(isPlaying: bool, frame: Frame, siblings: seq<Sibling>)
      requires Valid() && SiblingsValid(siblings)
      modifies corners, this`hoveredIndex, this`selectedIndex, this`isDirty, this`interactable
      ensures Valid()
      ensures !isPlaying ==>
        && corners[..] == old(corners[..]) && interactable == old(interactable)
        && selectedIndex == old(selectedIndex) && hoveredIndex == old(hoveredIndex) && isDirty == old(isDirty)
      ensures isPlaying ==> interactable == (old(interactable) != (frame.hotkeyReleased && !frame.commandHeld))
      ensures isPlaying && !interactable ==>
        && corners[..] == old(corners[..]) && isDirty == old(isDirty)
        && hoveredIndex == old(hoveredIndex) && selectedIndex == (if old(interactable) then -1 else old(selectedIndex))
      ensures isPlaying && interactable ==>
        var c := if frame.resetPressed then ResetCorners else old(corners[..]);
        var s := if frame.tabPressed then TabSelection(old(selectedIndex), old(hoveredIndex), frame.leftShift)
                 else old(selectedIndex);
        var moves := selectedIndex != -1 && (frame.input.mouseHeld || frame.input.arrowHeld);
        && hoveredIndex == HitTestSpec(c, frame.input.pointer, siblings)
        && selectedIndex == (if frame.input.mouseDown then hoveredIndex else s)
        && corners[..] == (if moves then c[selectedIndex := DragOrNudge(c[selectedIndex], frame.input)] else c)
        && isDirty == (old(isDirty) || frame.resetPressed || moves)
    {
      if !isPlaying {
        return;
      }
      if frame.hotkeyReleased && !frame.commandHeld {
        SetInteractable(!interactable, isPlaying);
      }
      if interactable {
        if frame.resetPressed {
          Reset();
        }
        if frame.tabPressed {
          CycleSelection(frame.leftShift);
        }
        UpdateInteraction(frame.input, siblings);
      }
    }

    /**
     * The matrix cache of OnRenderImage: recompute the homography from the
     * unit square to the corners when dirty (or when the editor's material
     * lacks the matrix), then clear the flag; answer the grid size the
     * material gets while interacting at runtime. Without a shader nothing
     * happens.
     */
    method Render(material: MaterialState, isEditor: bool, isPlaying: bool, aspect: real)
      returns (gridSize: Wrappers.Option<(int, int)>)
      requires Valid()
      modifies this`matrix, this`isDirty
      ensures Valid()
      ensures material.ShaderMissing? ==> matrix == old(matrix) && isDirty == old(isDirty) && gridSize.None?
      ensures !material.ShaderMissing? ==> !isDirty
      ensures var recompute := material.Created? || old(isDirty) || (isEditor && material.Existing? && !material.hasMatrixProperty);
        && (!material.ShaderMissing? && !recompute ==> matrix == old(matrix))
        && (!material.ShaderMissing? && recompute ==> Warps(matrix, corners[..]))
      ensures !material.ShaderMissing? ==> gridSize == if isPlaying && interactable then Wrappers.Some(GridTiles(aspect)) else Wrappers.None
    {
      if material.ShaderMissing? {
        return Wrappers.None;
      }
      if material.Created? {
        isDirty := true;
      }
      if isDirty || (isEditor && material.Existing? && !material.hasMatrixProperty) {
        RecomputeMatrix();
      }
      gridSize := if isPlaying && interactable then Wrappers.Some(GridTiles(aspect)) else Wrappers.None;
    }

    /** The recomputation inside OnRenderImage: solve for the warp and clear the dirty flag. */
    method RecomputeMatrix()
      requires Valid()
      modifies this`matrix, this`isDirty
      ensures Valid()
      ensures Warps(matrix, corners[..]) && !isDirty
    {
      var target := corners[..];
      var warp := HomographyMath.FindHomography(SourcePoints, target);
      assert Warps(warp, target);
      matrix, isDirty := warp, false;
    }

    /** The record of this component in the streaming-assets folder. */
    function AssetPath(root: string): string
      reads this
    {
      StreamingAssetPath(root, TypeName, name)
    }

    /**
     * TryLoadRuntimeSettings: from PlayerPrefs the corners are overwritten
     * only by a string of eight tokens, yet any stored key counts as loaded;
     * from streaming assets a readable record of four corners replaces the
     * corner array.
     */
    method TryLoadRuntimeSettings(prefs: map<string, string>, files: map<string, FileContent>, root: string, parse: string -> real)
      returns (loaded: bool)
      requires Valid()
      modifies this`corners, corners
      ensures Valid()
      ensures serialization == NoSerialization ==> !loaded && corners == old(corners) && corners[..] == old(corners[..])
      ensures serialization == PlayerPrefs ==> loaded == (saveKey in prefs) && corners == old(corners)
      ensures serialization == PlayerPrefs && saveKey in prefs ==>
        var decoded := DecodeCorners(prefs[saveKey], parse);
        corners[..] == if decoded.Some? then decoded.value else old(corners[..])
      ensures serialization == PlayerPrefs && saveKey !in prefs ==> corners[..] == old(corners[..])
      ensures serialization == StreamingAssets ==>
        var file := if AssetPath(root) in files then files[AssetPath(root)] else Missing;
        && loaded == (!file.Missing? && AcceptsLoaded(Unflattened(StoredFloats(file))))
        && (loaded ==> fresh(corners) && corners[..] == Unflattened(StoredFloats(file)))
        && (!loaded ==> corners == old(corners) && corners[..] == old(corners[..]))
    {
      match serialization {
        case NoSerialization =>
          return false;
        case PlayerPrefs =>
          if saveKey !in prefs {
            return false;
          }
          LoadCorners(prefs[saveKey], parse);
          return true;
        case StreamingAssets =>
          var path := AssetPath(root);
          loaded := LoadRecord(if path in files then files[path] else Missing);
      }
    }

    /** The PlayerPrefs branch: eight tokens overwrite the four corners in place, anything else leaves them. */
    method LoadCorners(stored: string, parse: string -> real)
      requires Valid()
      modifies corners
      ensures Valid()
      ensures var decoded := DecodeCorners(stored, parse);
        corners[..] == if decoded.Some? then decoded.value else old(corners[..])
    {
      var values := Split(stored, ' ');
      if |values| == 8 {
        ghost var decoded := DecodeCorners(stored, parse);
        for c := 0 to 4
          invariant forall e :: 0 <= e < c ==> corners[e] == decoded.value[e]
        {
          corners[c] := Vec2(parse(values[c * 2]), parse(values[c * 2 + 1]));
        }
        assert corners[..] == decoded.value;
      }
    }

    /** The streaming-assets branch: a readable four-corner record becomes the corner array. */
    method LoadRecord(file: FileContent) returns (loaded: bool)
      requires Valid()
      modifies this`corners
      ensures Valid()
      ensures loaded == (!file.Missing? && AcceptsLoaded(Unflattened(StoredFloats(file))))
      ensures loaded ==> fresh(corners) && corners[..] == Unflattened(StoredFloats(file))
      ensures !loaded ==> corners == old(corners)
    {
      var data := Data.Deserialize(file);
      if data == null || !AcceptsLoaded(data.corners[..]) {
        return false;
      }
      corners := data.corners;
      return true;
    }

    /**
     * SaveRuntimeSettings: PlayerPrefs gets the eight-token string under the
     * save key (made first if there is none); streaming assets gets the
     * flattened corners at the component's path.
     */
    method SaveRuntimeSettings(prefs: map<string, string>, files: map<string, FileContent>, root: string,
                               format: real -> string, guid: string)
      returns (newPrefs: map<string, string>, newFiles: map<string, FileContent>)
      requires Valid()
      modifies this`saveKey
      ensures Valid()
      ensures serialization == PlayerPrefs ==>
        && saveKey == (if old(saveKey) == "" then UniqueSaveKey(guid) else old(saveKey))
        && newPrefs == prefs[saveKey := Join(CornerTokens(corners[..], format), ' ')] && newFiles == files
      ensures serialization == StreamingAssets ==>
        saveKey == old(saveKey) && newPrefs == prefs && newFiles == files[AssetPath(root) := Stored(Flattened(corners[..]))]
      ensures serialization == NoSerialization ==> saveKey == old(saveKey) && newPrefs == prefs && newFiles == files
    {
      newPrefs, newFiles := prefs, files;
      match serialization {
        case PlayerPrefs =>
          if saveKey == "" {
            saveKey := UniqueSaveKey(guid);
          }
          assert corners[..][..4] == corners[..];
          var values := EncodeCorners(corners[..], format);
          newPrefs := prefs[saveKey := values];
        case StreamingAssets =>
          newFiles := StoreRecord(files, root);
        case NoSerialization =>
      }
    }

    /** The streaming-assets branch: the flattened corners are written at the component's path. */
    method StoreRecord(files: map<string, FileContent>, root: string) returns (newFiles: map<string, FileContent>)
      requires Valid()
      ensures newFiles == files[AssetPath(root) := Stored(Flattened(corners[..]))]
    {
      var data := new Data();
      data.corners := corners;
      var path := AssetPath(root);
      AssetPathHasDirectory(root, TypeName, name);
      var directory, written := data.Serialize(path);
      newFiles := files[path := Stored(written)];
    }

    /** Awake: make sure there is a save key, then load the settings or reset. */
    method Awake(prefs: map<string, string>, files: map<string, FileContent>, root: string,
                 parse: string -> real, guid: string)
      requires Valid()
      modifies this`saveKey, this`corners, corners, this`isDirty
      ensures Valid()
      ensures saveKey == if old(saveKey) == "" then UniqueSaveKey(guid) else old(saveKey)
      ensures serialization == NoSerialization ==> corners[..] == ResetCorners && isDirty
      ensures serialization == PlayerPrefs && saveKey !in prefs ==> corners[..] == ResetCorners && isDirty
      ensures serialization == PlayerPrefs && saveKey in prefs ==>
        var decoded := DecodeCorners(prefs[saveKey], parse);
        && corners[..] == (if decoded.Some? then decoded.value else old(corners[..]))
        && isDirty == old(isDirty)
      ensures serialization == StreamingAssets ==>
        var file := if AssetPath(root) in files then files[AssetPath(root)] else Missing;
        var accepted := !file.Missing? && AcceptsLoaded(Unflattened(StoredFloats(file)));
        && (accepted ==> corners[..] == Unflattened(StoredFloats(file)) && isDirty == old(isDirty))
        && (!accepted ==> corners[..] == ResetCorners && isDirty)
    {
      if saveKey == "" {
        saveKey := UniqueSaveKey(guid);
      }
      var loaded := TryLoadRuntimeSettings(prefs, files, root, parse);
      if !loaded {
        Reset();
      }
    }
  }

  /**
   * Saving to PlayerPrefs and loading again restores the corners, when the
   * number format has no spaces and parsing undoes it.
   */
  lemma PlayerPrefsSaveLoad(corners: seq<Vec2>, prefs: map<string, string>, key: string,
                            format: real -> string, parse: string -> real)
    requires |corners| == 4
    requires forall v :: ' ' !in format(v)
    requires forall v :: parse(format(v)) == v
    ensures var saved := prefs[key := Join(CornerTokens(corners, format), ' ')];
      key in saved && DecodeCorners(saved[key], parse) == Wrappers.Some(corners)
  {
    PlayerPrefsRoundTrip(corners, format, parse);
  }

  /** Saving to streaming assets and loading again restores the four corners and is accepted. */
  lemma StreamingAssetsSaveLoad(corners: seq<Vec2>, files: map<string, FileContent>, path: string)
    requires |corners| == 4
    ensures var saved := files[path := Stored(Flattened(corners))];
      path in saved && !saved[path].Missing? && AcceptsLoaded(Unflattened(StoredFloats(saved[path])))
      && Unflattened(StoredFloats(saved[path])) == corners
  {
    UnflattenFlatten(corners);
  }
}

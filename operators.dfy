/** The add-on's operators over one mesh: Find Colors, Select Faces By Face
    Color, Select This Color and Pick Vertex Color, reduced to what they do
    with the mesh's corner colours and face selection flags.
 */
module VertexColorSelector {
  import opened Colors
  import opened FaceColors
  import opened Selection

  /** The interaction mode of the active object. */
  datatype Mode = Edit | VertexPaint | WeightPaint | TexturePaint | OtherMode

  /** Why an operator was cancelled; each comes with an error report. */
  datatype Reason =
    | NotEditMode          // Find Colors outside Edit Mode
    | NoColorLayer         // the chosen colour attribute does not exist
    | UnsupportedMode      // a selection operator outside Edit and the paint modes
    | NoFaceUnderCursor    // Pick: the ray hit nothing, or a negative face index
    | FaceIndexOutOfRange  // Pick: the face index is not a face of the mesh

  datatype Status = Finished | Cancelled(reason: Reason)

  /** Edit Mode and the three paint modes are the modes the selection
      operators work in. */
  predicate SupportedMode(mode: Mode)
  {
    mode != OtherMode
  }

  /** Per face, whether its rounded average lies within threshold t of the
      target colour. */
  function Matches(faces: seq<Face>, target: Target, t: nat): (ms: seq<bool>)
    requires WellFormed(faces) && target.count > 0
    ensures |ms| == |faces|
  {
    seq(|faces|, i requires 0 <= i < |faces| => Near(Average(faces[i]), target, t))
  }

  /** Against an already rounded colour, a face matches exactly when
      color_close holds of its average and that colour. */
  lemma MatchesExactly(faces: seq<Face>, c: Rgb, t: nat, i: nat)
    requires WellFormed(faces) && i < |faces|
    ensures Matches(faces, Exactly(c), t)[i] == Close(Average(faces[i]), c, t)
  {
    NearExactly(Average(faces[i]), c, t);
  }

  /** A colour from the Find Colors list matches every face whose average it
      is, so Select This Color on that entry reaches all of those faces. */
  lemma ListedColourMatchesItsFaces(faces: seq<Face>, k: nat, i: nat)
    requires WellFormed(faces) && i < |faces|
    requires k < |Distinct(FaceAverages(faces))|
    requires Average(faces[i]) == Distinct(FaceAverages(faces))[k]
    ensures Matches(faces, Exactly(Distinct(FaceAverages(faces))[k]), Threshold)[i]
  {
    MatchesExactly(faces, Distinct(FaceAverages(faces))[k], Threshold, i);
  }

  /** The colours of the Find Colors enumeration, in order. */
  function Identifiers(items: seq<EnumItem>): (cs: seq<Rgb>)
    ensures |cs| == |items|
  {
    seq(|items|, k requires 0 <= k < |items| => items[k].identifier)
  }

  /** What a colour list equal to the first-occurrence deduplication of the
      face averages promises: no colour twice, every face's colour present and
      nothing else, as many entries as distinct face colours. */
  lemma ListedColours(faces: seq<Face>, items: seq<EnumItem>)
    requires WellFormed(faces)
    requires Identifiers(items) == Distinct(FaceAverages(faces))
    ensures forall j, k :: 0 <= j < k < |items| ==> items[j].identifier != items[k].identifier
    ensures forall i :: 0 <= i < |faces| ==> Average(faces[i]) in Identifiers(items)
    ensures forall c :: c in Identifiers(items) ==> c in FaceAverages(faces)
    ensures |items| == |set c | c in FaceAverages(faces)|
  {
    var avgs := FaceAverages(faces);
    DistinctNoDuplicates(avgs);
    DistinctSameElements(avgs);
    DistinctCardinality(avgs);
    forall j, k | 0 <= j < k < |items| ensures items[j].identifier != items[k].identifier {
      assert Identifiers(items)[j] == items[j].identifier;
      assert Identifiers(items)[k] == items[k].identifier;
    }
    forall i | 0 <= i < |faces| ensures Average(faces[i]) in Identifiers(items) {
      assert avgs[i] in avgs;
    }
  }

  /** A mesh: for each colour attribute by name, the corner colours of every
      face, and one selection flag per face. */
  class Mesh {
    const layers: map<string, seq<Face>>
    const selected: array<bool>

    /** Every colour attribute covers every face, and every face has
        corners. */
    ghost predicate Valid()
    {
      forall name | name in layers :: |layers[name]| == selected.Length && WellFormed(layers[name])
    }

    constructor (layers: map<string, seq<Face>>, selection: seq<bool>)
      requires forall name | name in layers :: |layers[name]| == |selection| && WellFormed(layers[name])
      ensures Valid() && fresh(selected)
      ensures this.layers == layers && selected[..] == selection
    {
      this.layers := layers;
      selected := new bool[|selection|](i requires 0 <= i < |selection| => selection[i]);
    }

    /** Find Colors: in Edit Mode, list the distinct face averages of the
        chosen colour attribute in order of first appearance, labelled
        Col_1 .. Col_n, and report how many there are. */
    method FindFaceColors(mode: Mode, attribute: string)
      returns (status: Status, items: seq<EnumItem>, previews: seq<Preview>, found: nat)
      requires Valid()
      ensures mode != Edit ==> status == Cancelled(NotEditMode)
      ensures mode == Edit && attribute !in layers ==> status == Cancelled(NoColorLayer)
      ensures status != Finished ==> items == [] && previews == [] && found == 0
      ensures mode == Edit && attribute in layers ==> status == Finished
      // no colour is listed twice
      ensures status == Finished ==>
                forall j, k :: 0 <= j < k < |items| ==> items[j].identifier != items[k].identifier
      // every face's colour is listed, and only those
      ensures status == Finished ==>
                forall i :: 0 <= i < |layers[attribute]| ==> Average(layers[attribute][i]) in Identifiers(items)
      ensures status == Finished ==>
                forall c :: c in Identifiers(items) ==> c in FaceAverages(layers[attribute])
      // listed in order of first appearance, under Col_1 .. Col_n
      ensures status == Finished ==> Identifiers(items) == Distinct(FaceAverages(layers[attribute]))
      ensures status == Finished ==> |previews| == |items|
      ensures status == Finished ==>
                forall k :: 0 <= k < |items| ==>
                  items[k].name == Label(k + 1) && items[k].description == "" &&
                  previews[k] == Preview(Label(k + 1), items[k].identifier)
      // the reported count is the number of distinct face colours
      ensures status == Finished ==> found == |items| == |set c | c in FaceAverages(layers[attribute])|
    {
      items, previews, found := [], [], 0;
      if mode != Edit {
        return Cancelled(NotEditMode), items, previews, found;
      }
      if attribute !in layers {
        return Cancelled(NoColorLayer), items, previews, found;
      }
      var faces := layers[attribute];
      items, previews := CollectFaceColors(faces);
      found := |items|;
      status := Finished;
      assert Identifiers(items) == Distinct(FaceAverages(faces));
      ListedColours(faces, items);
    }

    /** The shared selection pass of Select This Color and Pick: a matching
        face is deselected under Ctrl and selected otherwise, a face that
        does not match is deselected when no modifier is held. */
    method UpdateSelection(faces: seq<Face>, target: Target, m: Modifiers)
      requires WellFormed(faces) && |faces| == selected.Length && target.count > 0
      modifies selected
      ensures selected[..] == After(old(selected[..]), Matches(faces, target, Threshold), m)
    {
      for i := 0 to |faces|
        invariant forall k :: 0 <= k < i ==>
                    selected[k] == NextFlag(old(selected[k]), Near(Average(faces[k]), target, Threshold), m)
        invariant forall k :: i <= k < |faces| ==> selected[k] == old(selected[k])
      {
        if Near(Average(faces[i]), target, Threshold) {
          if m.ctrl {
            selected[i] := false;
          } else {
            selected[i] := true;
          }
        } else if !m.shift && !m.ctrl {
          selected[i] := false;
        }
      }
    }

    /** Select Faces By Face Color: the selection becomes exactly the faces
        whose average is within the threshold of the chosen colour. */
    method SelectFacesByFaceColor(mode: Mode, attribute: string, target: Rgb) returns (status: Status)
      requires Valid()
      modifies selected
      ensures Valid()
      ensures !SupportedMode(mode) ==> status == Cancelled(UnsupportedMode)
      ensures SupportedMode(mode) && attribute !in layers ==> status == Cancelled(NoColorLayer)
      ensures status != Finished ==> selected[..] == old(selected[..])
      ensures SupportedMode(mode) && attribute in layers ==>
                status == Finished &&
                forall i :: 0 <= i < selected.Length ==>
                  (selected[i] <==> Close(Average(layers[attribute][i]), target, Threshold))
    {
      if !SupportedMode(mode) {
        return Cancelled(UnsupportedMode);
      }
      if attribute !in layers {
        return Cancelled(NoColorLayer);
      }
      var faces := layers[attribute];
      for i := 0 to |faces|
        invariant forall k :: 0 <= k < i ==> (selected[k] <==> Close(Average(faces[k]), target, Threshold))
      {
        selected[i] := Close(Average(faces[i]), target, Threshold);
      }
      status := Finished;
    }

    /** Select This Color: apply the chosen colour's matches to the selection
        under the modifiers held when the button was pressed. */
    method SelectThisColor(mode: Mode, attribute: string, color: Rgb, m: Modifiers) returns (status: Status)
      requires Valid()
      modifies selected
      ensures Valid()
      ensures !SupportedMode(mode) ==> status == Cancelled(UnsupportedMode)
      ensures SupportedMode(mode) && attribute !in layers ==> status == Cancelled(NoColorLayer)
      ensures status != Finished ==> selected[..] == old(selected[..])
      ensures SupportedMode(mode) && attribute in layers ==>
                status == Finished &&
                selected[..] == After(old(selected[..]), Matches(layers[attribute], Exactly(color), Threshold), m)
    {
      if !SupportedMode(mode) {
        return Cancelled(UnsupportedMode);
      }
      if attribute !in layers {
        return Cancelled(NoColorLayer);
      }
      UpdateSelection(layers[attribute], Exactly(color), m);
      status := Finished;
    }

    /** Pick Vertex Color, on the left click: take the unrounded mean colour
        of the face under the cursor and apply its matches to the selection,
        under the click-time modifiers if Shift or Ctrl is held at the click
        and the invoke-time ones otherwise.  `color` is the operator's colour
        property as it stands; a cancelled pick leaves it as it is. */
    method Pick(attribute: string, hit: bool, faceIndex: int, click: Modifiers, invoked: Modifiers, color: Target)
      returns (status: Status, picked: Target)
      requires Valid()
      modifies selected
      ensures Valid()
      ensures !hit || faceIndex < 0 ==> status == Cancelled(NoFaceUnderCursor)
      ensures hit && faceIndex >= selected.Length ==> status == Cancelled(FaceIndexOutOfRange)
      ensures hit && 0 <= faceIndex < selected.Length && attribute !in layers ==>
                status == Cancelled(NoColorLayer)
      ensures status != Finished ==> picked == color && selected[..] == old(selected[..])
      ensures hit && 0 <= faceIndex < selected.Length && attribute in layers ==>
                var faces := layers[attribute];
                status == Finished &&
                picked == MeanOf(faces[faceIndex]) &&
                selected[..] == After(old(selected[..]), Matches(faces, picked, Threshold), Resolve(click, invoked)) &&
                // the clicked face itself always matches the picked colour
                selected[faceIndex] == !Resolve(click, invoked).ctrl
    {
      picked := color;
      if !hit || faceIndex < 0 {
        return Cancelled(NoFaceUnderCursor), picked;
      }
      if faceIndex >= selected.Length {
        return Cancelled(FaceIndexOutOfRange), picked;
      }
      if attribute !in layers {
        return Cancelled(NoColorLayer), picked;
      }
      var faces := layers[attribute];
      picked := MeanOf(faces[faceIndex]);
      var m := Resolve(click, invoked);
      UpdateSelection(faces, picked, m);
      OwnFaceIsNear(faces[faceIndex], Threshold);
      assert selected[faceIndex] == selected[..][faceIndex];
      status := Finished;
    }
  }
}

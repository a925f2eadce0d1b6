/**
 * The editor's canvas state and the handlers that change it: upload of the
 * base photo, adding, deleting and reordering accessories, the rotation and
 * scale controls, reset, clear, and the export run's save-and-restore of
 * the canvas background and selection.
 */
module Editor {
  import opened Wrappers
  import opened Layers
  import opened Catalog
  import opened Placement
  import opened Export

  /** Pixel size of an image the loader decoded. */
  datatype ImageSize = ImageSize(width: nat, height: nat)

  /** Background colour of a freshly mounted canvas. */
  const InitialBackground: string := "rgba(255,255,255,0)"

  /** Background colour the Clear button sets. */
  const ClearedBackground: string := "rgba(0,0,0,0)"

  predicate NoDupIds(s: seq<LayerId>) {
    forall i, j :: 0 <= i < j < |s| ==> s[i] != s[j]
  }

  /** The ids a selection holds. */
  function Elems(s: seq<LayerId>): (r: set<LayerId>)
    ensures forall id :: id in r <==> id in s
  {
    set id | id in s
  }

  lemma ElemsSnoc(s: seq<LayerId>, x: LayerId)
    ensures Elems(s + [x]) == Elems(s) + {x}
  {
  }

  /** The selection with layer `x` dropped, as `canvas.remove(x)` leaves it. */
  function SelectionWithout(sel: seq<LayerId>, x: LayerId): (r: seq<LayerId>)
    ensures forall id :: id in r <==> id in sel && id != x
    ensures NoDupIds(sel) ==> NoDupIds(r)
  {
    if sel == [] then []
    else
      var rest := SelectionWithout(sel[1..], x);
      assert sel == [sel[0]] + sel[1..];
      if sel[0] == x then rest
      else
        assert NoDupIds(sel) ==> sel[0] !in sel[1..];
        [sel[0]] + rest
  }

  // ----- State invariants -----

  /** Everything the editor keeps true of its state except the photo's position. */
  ghost predicate Consistent(layers: seq<Layer>, photo: Option<LayerId>, selection: seq<LayerId>, nextId: nat) {
    && UniqueIds(layers)
    && (forall l :: l in layers ==> l.id < nextId)
    && (forall l :: l in layers ==> l.scaleX == l.scaleY)
    && (forall l :: l in layers ==> (l.kind.Photo? <==> photo == Some(l.id)))
    && (forall l :: l in layers && photo == Some(l.id) ==> l.scaleX > 0.0)
    && (photo.Some? ==> Contains(layers, photo.value))
    && NoDupIds(selection)
    && (forall k :: 0 <= k < |selection| ==> Contains(layers, selection[k]))
  }

  ghost predicate PhotoAtBottom(layers: seq<Layer>, photo: Option<LayerId>) {
    photo.Some? ==> layers != [] && layers[0].id == photo.value
  }

  /** At most one photo layer, and `photoRef` is set exactly when a photo layer is on the canvas. */
  lemma {:induction false} AtMostOnePhoto(layers: seq<Layer>, photo: Option<LayerId>, selection: seq<LayerId>, nextId: nat)
    requires Consistent(layers, photo, selection, nextId)
    ensures forall i, j :: 0 <= i < |layers| && 0 <= j < |layers| && layers[i].kind.Photo? && layers[j].kind.Photo? ==> i == j
    ensures photo.Some? <==> exists l :: l in layers && l.kind.Photo?
  {
    forall i, j | 0 <= i < |layers| && 0 <= j < |layers| && layers[i].kind.Photo? && layers[j].kind.Photo?
      ensures i == j
    {
      assert layers[i] in layers && layers[j] in layers;
    }
    if photo.Some? {
      var l :| l in layers && l.id == photo.value;
    }
  }

  lemma ConsistentAfterRemove(layers: seq<Layer>, photo: Option<LayerId>, selection: seq<LayerId>, nextId: nat, x: LayerId)
    requires Consistent(layers, photo, selection, nextId)
    ensures var photo' := if photo == Some(x) then None else photo;
      && Consistent(Without(layers, {x}), photo', SelectionWithout(selection, x), nextId)
      && (PhotoAtBottom(layers, photo) ==> PhotoAtBottom(Without(layers, {x}), photo'))
  {
    var r := Without(layers, {x});
    var sel := SelectionWithout(selection, x);
    WithoutUnique(layers, {x});
    WithoutOne(layers, x);
    forall k | 0 <= k < |sel| ensures Contains(r, sel[k]) {
      assert sel[k] in sel;
      var m :| 0 <= m < |selection| && selection[m] == sel[k];
    }
    if PhotoAtBottom(layers, photo) && photo.Some? && photo != Some(x) {
      WithoutKeepsBottom(layers, {x});
    }
  }

  lemma ConsistentAfterRearrange(layers: seq<Layer>, r: seq<Layer>, photo: Option<LayerId>, selection: seq<LayerId>, nextId: nat)
    requires Consistent(layers, photo, selection, nextId) && Rearranged(layers, r)
    ensures Consistent(r, photo, selection, nextId)
  {
  }

  /** Replacing one layer by a transformed copy of it keeps the invariants. */
  lemma ConsistentAfterUpdate(layers: seq<Layer>, photo: Option<LayerId>, selection: seq<LayerId>, nextId: nat, i: nat, l: Layer)
    requires Consistent(layers, photo, selection, nextId) && PhotoAtBottom(layers, photo)
    requires i < |layers| && l.id == layers[i].id && l.kind == layers[i].kind
    requires l.scaleX == l.scaleY && (photo == Some(l.id) ==> l.scaleX > 0.0)
    ensures Consistent(layers[i := l], photo, selection, nextId) && PhotoAtBottom(layers[i := l], photo)
  {
    var r := layers[i := l];
    forall id | Contains(layers, id) ensures Contains(r, id) {
      var m :| m in layers && m.id == id;
      var k :| 0 <= k < |layers| && layers[k] == m;
      assert r[k] in r;
    }
    forall m | m in r ensures m == l || m in layers {
      var k :| 0 <= k < |r| && r[k] == m;
      if k != i { assert layers[k] == m; }
    }
  }

  /** A layer with an id above every present one keeps the ids unique. */
  lemma AppendFreshUnique(layers: seq<Layer>, l: Layer)
    requires UniqueIds(layers) && forall m :: m in layers ==> m.id < l.id
    ensures UniqueIds(layers + [l])
  {
    var r := layers + [l];
    forall i, j | 0 <= i < |r| && 0 <= j < |r| && i != j ensures r[i].id != r[j].id {
      if i < |layers| && j < |layers| {
      } else if i < |layers| {
        assert layers[i] in layers;
      } else {
        assert layers[j] in layers;
      }
    }
  }

  lemma ContainsAfterAppend(layers: seq<Layer>, l: Layer, id: LayerId)
    requires Contains(layers, id)
    ensures Contains(layers + [l], id)
  {
    var m :| m in layers && m.id == id;
    assert m in layers + [l];
  }

  /** Appending a fresh layer, either an accessory or the new photo when there is none, keeps the invariants. */
  lemma ConsistentAfterAppend(layers: seq<Layer>, photo: Option<LayerId>, selection: seq<LayerId>, nextId: nat,
                              l: Layer, photo': Option<LayerId>)
    requires Consistent(layers, photo, selection, nextId)
    requires l.id == nextId && l.scaleX == l.scaleY
    requires (photo' == photo && !l.kind.Photo?) || (photo.None? && photo' == Some(nextId) && l.kind.Photo? && l.scaleX > 0.0)
    ensures Consistent(layers + [l], photo', selection, nextId + 1)
  {
    var r := layers + [l];
    AppendFreshUnique(layers, l);
    forall k | 0 <= k < |selection| ensures Contains(r, selection[k]) {
      ContainsAfterAppend(layers, l, selection[k]);
    }
    if photo' == photo && photo.Some? {
      ContainsAfterAppend(layers, l, photo.value);
    } else if photo'.Some? {
      assert r[|layers|] == l;
    }
  }

  /** Changing the selection to other existing layers keeps the invariants. */
  lemma ConsistentWithSelection(layers: seq<Layer>, photo: Option<LayerId>, selection: seq<LayerId>, nextId: nat, sel: seq<LayerId>)
    requires Consistent(layers, photo, selection, nextId)
    requires NoDupIds(sel) && forall k :: 0 <= k < |sel| ==> Contains(layers, sel[k])
    ensures Consistent(layers, photo, sel, nextId)
  {
  }

  /** Installing a new photo on a canvas that has none: appended, then sent to
      the back, where it becomes the bottom layer above which the rest keep their order. */
  lemma InstallPhoto(rest: seq<Layer>, sel: seq<LayerId>, nextId: nat, img: Layer)
    requires Consistent(rest, None, sel, nextId)
    requires img.id == nextId && img.kind == Photo && img.scaleX == img.scaleY && img.scaleX > 0.0
    ensures Consistent(rest + [img], Some(nextId), sel, nextId + 1)
    ensures PhotoToBottom(rest + [img], Some(nextId)) == [img] + rest
  {
    ConsistentAfterAppend(rest, None, sel, nextId, img, Some(nextId));
    var t := rest + [img];
    assert t[|rest|] == img;
    assert Contains(t, nextId) by { assert t[|rest|] in t; }
    assert IndexOf(t, nextId) == |rest|;
    ToBackIsMoveOne(t, |rest|);
    assert t[..|rest|] == rest && t[|rest| + 1..] == [];
  }

  lemma InstalledPhotoSelected(rest: seq<Layer>, sel: seq<LayerId>, nextId: nat, img: Layer)
    requires Consistent(rest + [img], Some(nextId), sel, nextId + 1) && img.id == nextId
    ensures Consistent([img] + rest, Some(nextId), [nextId], nextId + 1)
    ensures PhotoAtBottom([img] + rest, Some(nextId))
  {
    var t := rest + [img];
    MoveToBackRearranges(rest, img, []);
    assert rest + [img] + [] == t && [img] + rest + [] == [img] + rest;
    ConsistentAfterRearrange(t, [img] + rest, Some(nextId), sel, nextId + 1);
    assert Contains([img] + rest, nextId) by { assert ([img] + rest)[0] == img; }
    ConsistentWithSelection([img] + rest, Some(nextId), sel, nextId + 1, [nextId]);
  }

  /** The state after an upload: the previous photo (if any) is gone from the
      list and the selection, the new fitted photo is installed at the bottom and
      is the only selected layer; the invariants hold at every step. */
  lemma UploadKeepsInvariants(layers: seq<Layer>, photo: Option<LayerId>, selection: seq<LayerId>, nextId: nat, img: Layer)
    requires Consistent(layers, photo, selection, nextId) && PhotoAtBottom(layers, photo)
    requires img.id == nextId && img.kind == Photo && img.scaleX == img.scaleY && img.scaleX > 0.0
    ensures var rest := if photo.Some? then Without(layers, {photo.value}) else layers;
      var sel := if photo.Some? then SelectionWithout(selection, photo.value) else selection;
      && Consistent(rest + [img], Some(nextId), sel, nextId + 1)
      && PhotoToBottom(rest + [img], Some(nextId)) == [img] + rest
      && Consistent([img] + rest, Some(nextId), [nextId], nextId + 1)
      && PhotoAtBottom([img] + rest, Some(nextId))
  {
    var rest := if photo.Some? then Without(layers, {photo.value}) else layers;
    var sel := if photo.Some? then SelectionWithout(selection, photo.value) else selection;
    if photo.Some? {
      ConsistentAfterRemove(layers, photo, selection, nextId, photo.value);
    }
    InstallPhoto(rest, sel, nextId, img);
    InstalledPhotoSelected(rest, sel, nextId, img);
  }

  /** The state after adding an accessory: appended as the last layer, already
      front-most, the photo still at the bottom, the new layer the selection. */
  lemma AddKeepsInvariants(layers: seq<Layer>, photo: Option<LayerId>, selection: seq<LayerId>, nextId: nat, img: Layer)
    requires Consistent(layers, photo, selection, nextId) && PhotoAtBottom(layers, photo)
    requires img.id == nextId && img.kind.Accessory? && img.scaleX == img.scaleY
    ensures var t := layers + [img];
      && Consistent(t, photo, selection, nextId + 1)
      && ToFront(t, |t| - 1) == t
      && PhotoToBottom(t, photo) == t
      && Consistent(t, photo, [nextId], nextId + 1)
      && PhotoAtBottom(t, photo)
  {
    var t := layers + [img];
    ConsistentAfterAppend(layers, photo, selection, nextId, img, photo);
    AppendedStaysOnTop(layers, img, photo);
    assert Contains(t, nextId) by { assert t[|layers|] in t; }
    ConsistentWithSelection(t, photo, selection, nextId + 1, [nextId]);
  }

  /** A layer appended to a stack whose photo is at the bottom is already
      front-most, and re-bottoming the photo leaves the stack alone. */
  lemma AppendedStaysOnTop(layers: seq<Layer>, img: Layer, photo: Option<LayerId>)
    requires UniqueIds(layers + [img]) && PhotoAtBottom(layers, photo)
    ensures var t := layers + [img];
      ToFront(t, |t| - 1) == t && PhotoToBottom(t, photo) == t && PhotoAtBottom(t, photo)
  {
    var t := layers + [img];
    ToFrontRearranges(t, |t| - 1);
    if photo.Some? {
      assert t[0] == layers[0];
    }
    PhotoToBottomSpec(t, photo);
  }

  /** The photo reference once the layers in `removed` are gone. */
  function PhotoAfter(photo: Option<LayerId>, removed: set<LayerId>): (r: Option<LayerId>)
    ensures r.Some? <==> photo.Some? && photo.value !in removed
    ensures r.Some? ==> r == photo
  {
    if photo.Some? && photo.value in removed then None else photo
  }

  /** One turn of the delete loop: removing the next active layer `active[i]`
      extends the removed prefix by it and forgets the photo if it is the photo. */
  lemma DeleteStep(orig: seq<Layer>, active: seq<LayerId>, i: nat, photo0: Option<LayerId>,
                   layers: seq<Layer>, photo: Option<LayerId>)
    requires i < |active|
    requires layers == Without(orig, Elems(active[..i]))
    requires photo == PhotoAfter(photo0, Elems(active[..i]))
    ensures Without(layers, {active[i]}) == Without(orig, Elems(active[..i + 1]))
    ensures (if photo == Some(active[i]) then None else photo) == PhotoAfter(photo0, Elems(active[..i + 1]))
  {
    assert active[..i + 1] == active[..i] + [active[i]];
    WithoutTwice(orig, Elems(active[..i]), active[i]);
    ElemsSnoc(active[..i], active[i]);
  }

  /** Deleting the whole selection keeps the invariants, with the selection
      cleared and the photo reference dropped exactly when the photo was selected. */
  lemma DeleteKeepsInvariants(layers: seq<Layer>, photo: Option<LayerId>, selection: seq<LayerId>, nextId: nat)
    requires Consistent(layers, photo, selection, nextId) && PhotoAtBottom(layers, photo)
    ensures var photo' := if photo.Some? && photo.value in selection then None else photo;
      var r := Without(layers, Elems(selection));
      Consistent(r, photo', [], nextId) && PhotoAtBottom(r, photo')
  {
    var photo' := if photo.Some? && photo.value in selection then None else photo;
    var r := Without(layers, Elems(selection));
    WithoutUnique(layers, Elems(selection));
    if photo'.Some? {
      WithoutKeepsBottom(layers, Elems(selection));
      assert r[0] in r;
    }
  }

  // ----- Reordering, as list functions of the handlers -----

  /** Sending the layer at index 1 to the back swaps the two bottom layers. */
  lemma ToBackOfSecond(f: seq<Layer>)
    requires |f| > 1
    ensures ToBack(f, 1) == [f[1], f[0]] + f[2..]
  {
    assert f[..1] == [f[0]];
  }

  /** A list whose two bottom layers are swapped has the same rest. */
  lemma SwapBottomTwo(layers: seq<Layer>, f: seq<Layer>)
    requires |layers| > 1 && |f| == |layers| && f[0] == layers[1] && f[1] == layers[0]
    requires forall k :: 2 <= k < |layers| ==> f[k] == layers[k]
    ensures [f[1], f[0]] + f[2..] == layers
  {
  }

  /** `bringForward` on the photo at the bottom leaves the list as it was. */
  lemma BringForwardOnPhotoIsNoop(layers: seq<Layer>, photo: LayerId)
    requires UniqueIds(layers) && layers != [] && layers[0].id == photo
    ensures PhotoToBottom(Forward(layers, 0), Some(photo)) == layers
  {
    var f := Forward(layers, 0);
    ForwardRearranges(layers, 0);
    if |layers| > 1 {
      assert Contains(f, photo) by { assert f[1] in f; }
      assert f[0].id != photo;
      assert IndexOf(f, photo) == 1;
      ToBackOfSecond(f);
      SwapBottomTwo(layers, f);
    } else {
      PhotoToBottomSpec(f, Some(photo));
    }
  }

  /** `bringForward` on an accessory is a plain swap with its upper neighbour:
      the photo at index 0 is never disturbed. */
  lemma BringForwardOnAccessory(layers: seq<Layer>, photo: Option<LayerId>, i: nat)
    requires UniqueIds(layers) && 0 < i < |layers| && PhotoAtBottom(layers, photo)
    ensures PhotoToBottom(Forward(layers, i), photo) == Forward(layers, i)
  {
    var f := Forward(layers, i);
    ForwardRearranges(layers, i);
    assert f[0] == layers[0];
    PhotoToBottomSpec(f, photo);
  }

  /** `sendBackward` on the layer right above the photo changes nothing: the
      photo is sent back under it again. */
  lemma SendBackwardAbovePhotoIsNoop(layers: seq<Layer>, photo: LayerId)
    requires UniqueIds(layers) && |layers| > 1 && layers[0].id == photo
    ensures PhotoToBottom(Backward(layers, 1), Some(photo)) == layers
  {
    var b := Backward(layers, 1);
    BackwardRearranges(layers, 1);
    assert Contains(b, photo) by { assert b[1] in b; }
    assert b[0].id != photo;
    assert IndexOf(b, photo) == 1;
    ToBackOfSecond(b);
    SwapBottomTwo(layers, b);
  }

  /** `sendBackward` on a layer two or more above the bottom is a plain swap
      with its lower neighbour. */
  lemma SendBackwardHigh(layers: seq<Layer>, photo: Option<LayerId>, i: nat)
    requires UniqueIds(layers) && 1 < i < |layers| && PhotoAtBottom(layers, photo)
    ensures PhotoToBottom(Backward(layers, i), photo) == Backward(layers, i)
  {
    var b := Backward(layers, i);
    BackwardRearranges(layers, i);
    assert b[0] == layers[0];
    PhotoToBottomSpec(b, photo);
  }

  /** The editor: the canvas object list, `photoRef`, the active selection and
      the status the component shows. */
  class PfpEditor {
    var layers: seq<Layer>               // canvas objects, back to front
    var photo: Option<LayerId>           // photoRef
    var selection: seq<LayerId>          // the canvas's active objects
    var nextId: nat                      // identity of the next image created
    var background: string               // canvas.backgroundColor
    var errorMsg: Option<string>
    var exportError: Option<string>
    var isExporting: bool
    var downloadName: Option<string>

    ghost predicate Valid()
      reads this
    {
      Consistent(layers, photo, selection, nextId) && PhotoAtBottom(layers, photo)
    }

    /** The object the single-object controls act on: the selected layer when
        exactly one is selected. */
    function Active(): (a: Option<LayerId>)
      reads this
      ensures a.Some? <==> |selection| == 1
      ensures a.Some? ==> a.value == selection[0]
      ensures Valid() && a.Some? ==> Contains(layers, a.value)
    {
      if |selection| == 1 then Some(selection[0]) else None
    }

    /** The mounted, empty canvas. */
    constructor ()
      ensures Valid()
      ensures layers == [] && photo == None && selection == [] && nextId == 0
      ensures background == InitialBackground && errorMsg == None && exportError == None
      ensures !isExporting && downloadName == None
    {
      layers := [];
      photo := None;
      selection := [];
      nextId := 0;
      background := InitialBackground;
      errorMsg := None;
      exportError := None;
      isExporting := false;
      downloadName := None;
    }

    /** A pointer or keyboard selection of existing layers. */
    method Select(ids: seq<LayerId>)
      requires Valid() && NoDupIds(ids)
      requires forall k :: 0 <= k < |ids| ==> Contains(layers, ids[k])
      modifies this`selection
      ensures Valid() && selection == ids
    {
      selection := ids;
    }

    /** `canvas.remove(x)`: the layer leaves the list and the selection. */
    method Remove(x: LayerId)
      modifies this`layers, this`selection
      ensures layers == Without(old(layers), {x})
      ensures selection == SelectionWithout(old(selection), x)
    {
      layers := Without(layers, {x});
      selection := SelectionWithout(selection, x);
    }

    /** `ensurePhotoOnBottom`. */
    method EnsurePhotoOnBottom()
      requires Consistent(layers, photo, selection, nextId)
      modifies this`layers
      ensures Valid()
      ensures layers == PhotoToBottom(old(layers), photo)
    {
      PhotoToBottomSpec(layers, photo);
      ConsistentAfterRearrange(layers, PhotoToBottom(layers, photo), photo, selection, nextId);
      if photo.None? {
        return;
      }
      if !Contains(layers, photo.value) {
        return;
      }
      var i := IndexOf(layers, photo.value);
      layers := ToBack(layers, i);
    }

    /** The first canvas step of `handleUpload`: the previous photo, if any, is removed. */
    method DropPhoto()
      requires Valid()
      modifies this`layers, this`photo, this`selection
      ensures Valid() && photo == None
      ensures old(photo).Some? ==>
        layers == Without(old(layers), {old(photo).value}) && selection == SelectionWithout(old(selection), old(photo).value)
      ensures old(photo).None? ==> layers == old(layers) && selection == old(selection)
    {
      if photo.Some? {
        ConsistentAfterRemove(layers, photo, selection, nextId, photo.value);
        Remove(photo.value);
        photo := None;
      }
    }

    /** The rest of `handleUpload` on a canvas without a photo: `img` is added
        as the photo, sent to the bottom and selected. */
    method AddPhoto(img: Layer)
      requires Valid() && photo == None
      requires img.id == nextId && img.kind == Photo && img.scaleX == img.scaleY && img.scaleX > 0.0
      modifies this`layers, this`photo, this`selection, this`nextId
      ensures Valid()
      ensures nextId == old(nextId) + 1 && photo == Some(old(nextId)) && selection == [old(nextId)]
      ensures layers == [img] + old(layers)
    {
      InstallPhoto(layers, selection, nextId, img);
      InstalledPhotoSelected(layers, selection, nextId, img);
      photo := Some(nextId);
      nextId := nextId + 1;
      layers := layers + [img];
      EnsurePhotoOnBottom();
      selection := [img.id];
    }

    /** `handleUpload`: replace the photo by the decoded image, cover-fitted,
        at the bottom, and selected. A failed decode changes no layer. */
    method HandleUpload(decoded: Option<ImageSize>)
      requires Valid()
      modifies this`layers, this`photo, this`selection, this`nextId, this`errorMsg, this`exportError
      ensures Valid()
      ensures errorMsg == None && exportError == None
      ensures decoded.None? ==>
        layers == old(layers) && photo == old(photo) && selection == old(selection) && nextId == old(nextId)
      ensures decoded.Some? ==>
        var id := old(nextId);
        var img := Fit(Layer(id, Photo, decoded.value.width, decoded.value.height,
                             LogicalSize / 2.0, LogicalSize / 2.0, 0.0, 1.0, 1.0), Cover, LogicalSize, LogicalSize);
        && nextId == id + 1
        && photo == Some(id) && selection == [id]
        && layers == [img] + (if old(photo).Some? then Without(old(layers), {old(photo).value}) else old(layers))
    {
      errorMsg := None;
      exportError := None;
      if decoded.None? {
        return;
      }
      var img := Layer(nextId, Photo, decoded.value.width, decoded.value.height,
                       LogicalSize / 2.0, LogicalSize / 2.0, 0.0, 1.0, 1.0);
      var fitted := Fit(img, Cover, LogicalSize, LogicalSize);
      FitKeepsScalePositive(img, Cover, LogicalSize, LogicalSize);
      DropPhoto();
      AddPhoto(fitted);
    }

    /** The canvas part of `addAccessory`: `img` is added, brought to the
        front, the photo is re-bottomed, and `img` becomes the selection. */
    method PutInFront(img: Layer)
      requires Valid()
      requires img.id == nextId && img.kind.Accessory? && img.scaleX == img.scaleY
      modifies this`layers, this`selection, this`nextId
      ensures Valid()
      ensures nextId == old(nextId) + 1 && selection == [old(nextId)]
      ensures layers == old(layers) + [img]
    {
      AddKeepsInvariants(layers, photo, selection, nextId, img);
      nextId := nextId + 1;
      layers := layers + [img];
      layers := ToFront(layers, |layers| - 1);
      EnsurePhotoOnBottom();
      selection := [img.id];
    }

    /** `addAccessory`: on a successful load the accessory, at its default
        placement, becomes the front-most layer and the selection; on a failed
        load the canvas is unchanged and the missing-asset message is shown. */
    method AddAccessory(acc: AccessoryDef, loaded: Option<ImageSize>)
      requires Valid()
      modifies this`layers, this`selection, this`nextId, this`errorMsg
      ensures Valid()
      ensures loaded.None? ==>
        layers == old(layers) && selection == old(selection) && nextId == old(nextId)
        && errorMsg == Some(MissingAssetMessage(acc.src))
      ensures loaded.Some? ==>
        var id := old(nextId);
        && errorMsg == None && nextId == id + 1 && selection == [id]
        && layers == old(layers) + [NewAccessory(id, acc, loaded.value.width, loaded.value.height, LogicalSize, LogicalSize)]
        && layers[|layers| - 1].id == id
    {
      errorMsg := None;
      if loaded.None? {
        errorMsg := Some(MissingAssetMessage(acc.src));
        return;
      }
      var img := NewAccessory(nextId, acc, loaded.value.width, loaded.value.height, LogicalSize, LogicalSize);
      PutInFront(img);
    }

    /** The loop of `deleteSelected` over the active objects: each is removed
        from the canvas, and the photo reference is dropped when it is the photo. */
    method RemoveEach(active: seq<LayerId>)
      modifies this`layers, this`photo, this`selection
      ensures layers == Without(old(layers), Elems(active))
      ensures photo == PhotoAfter(old(photo), Elems(active))
    {
      var i := 0;
      WithoutAbsent(layers, {});
      assert Elems(active[..0]) == {};
      while i < |active|
        invariant 0 <= i <= |active|
        invariant layers == Without(old(layers), Elems(active[..i]))
        invariant photo == PhotoAfter(old(photo), Elems(active[..i]))
      {
        var obj := active[i];
        DeleteStep(old(layers), active, i, old(photo), layers, photo);
        if photo == Some(obj) {
          photo := None;
        }
        Remove(obj);
        i := i + 1;
      }
      assert active[..i] == active;
    }

    /** `deleteSelected`: remove every selected layer, forget the photo if it
        was one of them, and clear the selection. No-op when nothing is selected. */
    method DeleteSelected()
      requires Valid()
      modifies this`layers, this`photo, this`selection
      ensures Valid()
      ensures old(selection) == [] ==> layers == old(layers) && photo == old(photo) && selection == []
      ensures old(selection) != [] ==>
        && layers == Without(old(layers), Elems(old(selection)))
        && photo == (if old(photo).Some? && old(photo).value in old(selection) then None else old(photo))
        && selection == []
    {
      if selection == [] {
        return;
      }
      var active := selection;
      DeleteKeepsInvariants(layers, photo, selection, nextId);
      RemoveEach(active);
      selection := [];
    }

    /** The Delete/Backspace key handler: the same removal, other keys are ignored. */
    method KeyDown(key: string)
      requires Valid()
      modifies this`layers, this`photo, this`selection
      ensures Valid()
      ensures key != "Backspace" && key != "Delete" ==>
        layers == old(layers) && photo == old(photo) && selection == old(selection)
      ensures (key == "Backspace" || key == "Delete") && old(selection) != [] ==>
        && layers == Without(old(layers), Elems(old(selection)))
        && photo == (if old(photo).Some? && old(photo).value in old(selection) then None else old(photo))
        && selection == []
      ensures (key == "Backspace" || key == "Delete") && old(selection) == [] ==>
        layers == old(layers) && photo == old(photo) && selection == []
    {
      if key != "Backspace" && key != "Delete" {
        return;
      }
      DeleteSelected();
    }

    /** `bringForward`: move the active layer one step up, then put the photo back at the bottom. */
    method BringForward()
      requires Valid()
      modifies this`layers
      ensures Valid()
      ensures |old(selection)| != 1 ==> layers == old(layers)
      ensures |old(selection)| == 1 ==>
        layers == PhotoToBottom(Forward(old(layers), IndexOf(old(layers), selection[0])), photo)
    {
      var active := Active();
      if active.None? {
        return;
      }
      var i := IndexOf(layers, active.value);
      ForwardRearranges(layers, i);
      ConsistentAfterRearrange(layers, Forward(layers, i), photo, selection, nextId);
      layers := Forward(layers, i);
      EnsurePhotoOnBottom();
    }

    /** `sendBackward`: move the active layer one step down, then send the photo to the back. */
    method SendBackward()
      requires Valid()
      modifies this`layers
      ensures Valid()
      ensures |old(selection)| != 1 ==> layers == old(layers)
      ensures |old(selection)| == 1 ==>
        layers == PhotoToBottom(Backward(old(layers), IndexOf(old(layers), selection[0])), photo)
    {
      var active := Active();
      if active.None? {
        return;
      }
      var i := IndexOf(layers, active.value);
      BackwardRearranges(layers, i);
      ConsistentAfterRearrange(layers, Backward(layers, i), photo, selection, nextId);
      layers := Backward(layers, i);
      PhotoToBottomSpec(layers, photo);
      ConsistentAfterRearrange(layers, PhotoToBottom(layers, photo), photo, selection, nextId);
      if photo.Some? {
        var j := IndexOf(layers, photo.value);
        layers := ToBack(layers, j);
      }
    }

    /** `resetSelectedTransform`: reset the active layer to its default placement. */
    method ResetSelectedTransform()
      requires Valid()
      modifies this`layers
      ensures Valid()
      ensures |old(selection)| != 1 ==> layers == old(layers)
      ensures |old(selection)| == 1 ==>
        var i := IndexOf(old(layers), selection[0]);
        layers == old(layers)[i := ResetLayer(old(layers)[i], photo == Some(selection[0]), Accessories, LogicalSize, LogicalSize)]
    {
      var active := Active();
      if active.None? {
        return;
      }
      var id := active.value;
      var i := IndexOf(layers, id);
      var l := layers[i];
      assert l in layers;
      var r := ResetLayer(l, photo == Some(id), Accessories, LogicalSize, LogicalSize);
      if photo == Some(id) {
        FitKeepsScalePositive(l.(angle := 0.0), Cover, LogicalSize, LogicalSize);
        ConsistentAfterUpdate(layers, photo, selection, nextId, i, r);
        layers := layers[i := Fit(l.(angle := 0.0), Cover, LogicalSize, LogicalSize)];
        PhotoToBottomSpec(layers, photo);
        EnsurePhotoOnBottom();
        return;
      }
      ConsistentAfterUpdate(layers, photo, selection, nextId, i, r);
      if l.kind.Accessory? && l.kind.defId != "" {
        var def := FindById(Accessories, l.kind.defId);
        if def.Some? {
          layers := layers[i := PlaceAccessory(l.(angle := 0.0), def.value, LogicalSize, LogicalSize)];
        } else {
          layers := layers[i := l.(angle := 0.0)];
        }
      } else {
        layers := layers[i := l.(angle := 0.0)];
      }
    }

    /** `setSelectedRotation`: store the angle on the active layer. */
    method SetSelectedRotation(deg: real)
      requires Valid()
      modifies this`layers
      ensures Valid()
      ensures |old(selection)| != 1 ==> layers == old(layers)
      ensures |old(selection)| == 1 ==>
        var i := IndexOf(old(layers), selection[0]);
        layers == old(layers)[i := old(layers)[i].(angle := deg)]
    {
      var active := Active();
      if active.None? {
        return;
      }
      var i := IndexOf(layers, active.value);
      var l := layers[i];
      assert l in layers;
      ConsistentAfterUpdate(layers, photo, selection, nextId, i, l.(angle := deg));
      layers := layers[i := l.(angle := deg)];
    }

    /** `setSelectedScalePct`: store the clamped percentage as a uniform scale
        on the active layer. */
    method SetSelectedScalePct(pct: real)
      requires Valid()
      modifies this`layers
      ensures Valid()
      ensures |old(selection)| != 1 ==> layers == old(layers)
      ensures |old(selection)| == 1 ==>
        var i := IndexOf(old(layers), selection[0]);
        var s := ScaleFromPercent(pct);
        && layers == old(layers)[i := old(layers)[i].(scaleX := s, scaleY := s)]
        && MinScale <= layers[i].scaleX == layers[i].scaleY <= MaxScale
    {
      var active := Active();
      if active.None? {
        return;
      }
      var i := IndexOf(layers, active.value);
      var l := layers[i];
      var s := ScaleFromPercent(pct);
      ConsistentAfterUpdate(layers, photo, selection, nextId, i, l.(scaleX := s, scaleY := s));
      layers := layers[i := l.(scaleX := s, scaleY := s)];
    }

    /** The Clear button: an empty canvas with a transparent background and no photo. */
    method ClearAll()
      requires Valid()
      modifies this`layers, this`photo, this`selection, this`background, this`errorMsg, this`exportError
      ensures Valid()
      ensures layers == [] && photo == None && selection == []
      ensures background == ClearedBackground && errorMsg == None && exportError == None
    {
      layers := [];
      background := ClearedBackground;
      photo := None;
      selection := [];
      errorMsg := None;
      exportError := None;
    }

    /** `exportPng`: render with the export background and no selection, run the
        steps `env` describes, and in the `finally` block put the previous
        background and selection back, whichever way the run ended. Returns the
        status and the background and selection the render saw. */
    method ExportPng(opts: ExportOptions, env: ExportEnv)
      returns (status: ExportStatus, renderedBg: string, renderedSelection: seq<LayerId>)
      requires Valid()
      modifies this`background, this`selection, this`exportError, this`isExporting, this`downloadName
      ensures Valid()
      ensures background == old(background) && selection == old(selection)
      ensures renderedBg == BgColor(opts.bg) && renderedSelection == []
      ensures status == Outcome(opts, env)
      ensures !isExporting
      ensures exportError == (if status.Failed? then Some(status.message) else None)
      ensures downloadName == (if status.Downloaded? then Some(status.name) else old(downloadName))
    {
      exportError := None;
      isExporting := true;
      var prevBg := background;
      background := BgColor(opts.bg);
      var activeObj := selection;
      if activeObj != [] {
        selection := [];
      }
      renderedBg, renderedSelection := background, selection;

      // try
      if env.resize.Throws? {
        status := Failed(ErrorText(env.resize));
      } else if opts.shape == Circle && !env.context {
        status := Aborted;          // `if (!ctx) return;`
      } else if env.encode.Throws? {
        status := Failed(ErrorText(env.encode));
      } else {
        var nextName := FileName(opts.shape, opts.size);
        downloadName := Some(nextName);
        status := Downloaded(nextName);
      }
      // catch
      if status.Failed? {
        exportError := Some(status.message);
      }
      // finally
      background := prevBg;
      if activeObj != [] {
        selection := activeObj;
      }
      isExporting := false;
    }
  }
}

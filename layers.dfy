/**
 * The canvas object list: image layers in back-to-front order, and the
 * index semantics of the canvas collection calls the editor makes
 * (remove, bring forward, send backwards, send to back, bring to front).
 */
module Layers {
  import opened Wrappers

  /** Object identity of a canvas image. */
  type LayerId = nat

  /** The `data.kind` tag a layer is created with. */
  datatype Kind = Photo | Accessory(defId: string)

  /** One canvas image. Its origin is its centre, so `left`/`top` are the centre
      point; `width`/`height` are the decoded image's own pixel size. */
  datatype Layer = Layer(
    id: LayerId,
    kind: Kind,
    width: nat,
    height: nat,
    left: real,
    top: real,
    angle: real,
    scaleX: real,
    scaleY: real
  )

  predicate UniqueIds(s: seq<Layer>) {
    forall i, j :: 0 <= i < |s| && 0 <= j < |s| && i != j ==> s[i].id != s[j].id
  }

  predicate Contains(s: seq<Layer>, id: LayerId) {
    exists l :: l in s && l.id == id
  }

  /** Position of the layer with identity `id`. */
  function IndexOf(s: seq<Layer>, id: LayerId): (i: nat)
    requires Contains(s, id)
    ensures i < |s| && s[i].id == id
    ensures forall j :: 0 <= j < i ==> s[j].id != id
  {
    if s[0].id == id then 0
    else
      assert s == [s[0]] + s[1..];
      assert Contains(s[1..], id);
      IndexOf(s[1..], id) + 1
  }

  /** `canvas.remove` of every layer whose identity is in `ids`: the list with
      those layers taken out and the others left in order. */
  function Without(s: seq<Layer>, ids: set<LayerId>): (r: seq<Layer>)
    ensures |r| <= |s|
    ensures forall l :: l in r <==> l in s && l.id !in ids
  {
    if s == [] then []
    else
      assert s == [s[0]] + s[1..];
      if s[0].id in ids then Without(s[1..], ids)
      else [s[0]] + Without(s[1..], ids)
  }

  /** `bringObjectForward`: swap with the next layer up; no-op on the top layer. */
  function Forward(s: seq<Layer>, i: nat): (r: seq<Layer>)
    requires i < |s|
    ensures |r| == |s|
    ensures i + 1 < |s| ==> r[i + 1] == s[i]
  {
    if i + 1 < |s| then s[i := s[i + 1]][i + 1 := s[i]] else s
  }

  /** `sendObjectBackwards`: swap with the next layer down, which is the one
      below stepping forward; no-op on the bottom layer. */
  function Backward(s: seq<Layer>, i: nat): (r: seq<Layer>)
    requires i < |s|
    ensures |r| == |s|
    ensures 0 < i ==> r[i - 1] == s[i]
  {
    if 0 < i then Forward(s, i - 1) else s
  }

  /** `sendObjectToBack`: move layer `i` to index 0. */
  function ToBack(s: seq<Layer>, i: nat): (r: seq<Layer>)
    requires i < |s|
    ensures |r| == |s| && r[0] == s[i]
  {
    [s[i]] + s[..i] + s[i + 1..]
  }

  /** `bringObjectToFront`: move layer `i` to the last index. */
  function ToFront(s: seq<Layer>, i: nat): (r: seq<Layer>)
    requires i < |s|
    ensures |r| == |s| && r[|r| - 1] == s[i]
  {
    s[..i] + s[i + 1..] + [s[i]]
  }

  /** `ensurePhotoOnBottom`: when the photo is on the canvas, send it to the back. */
  function PhotoToBottom(s: seq<Layer>, photo: Option<LayerId>): (r: seq<Layer>)
    ensures |r| == |s|
    ensures photo.Some? && Contains(s, photo.value) ==> r[0].id == photo.value
  {
    if photo.Some? && Contains(s, photo.value) then ToBack(s, IndexOf(s, photo.value)) else s
  }

  // ----- Properties of the list operations -----

  lemma {:induction false} WithoutConcat(a: seq<Layer>, b: seq<Layer>, ids: set<LayerId>)
    ensures Without(a + b, ids) == Without(a, ids) + Without(b, ids)
  {
    if a != [] {
      assert (a + b)[1..] == a[1..] + b;
      WithoutConcat(a[1..], b, ids);
    } else {
      assert a + b == b;
    }
  }

  /** Removing nothing that is present leaves the list as it was. */
  lemma {:induction false} WithoutAbsent(s: seq<Layer>, ids: set<LayerId>)
    requires forall l :: l in s ==> l.id !in ids
    ensures Without(s, ids) == s
  {
    if s != [] {
      assert s == [s[0]] + s[1..];
      WithoutAbsent(s[1..], ids);
    }
  }

  /** Removing one id after a set of ids is removing their union. */
  lemma {:induction false} WithoutTwice(s: seq<Layer>, a: set<LayerId>, x: LayerId)
    ensures Without(Without(s, a), {x}) == Without(s, a + {x})
  {
    if s != [] {
      WithoutTwice(s[1..], a, x);
    }
  }

  /** Removing the same layers a second time changes nothing. */
  lemma {:induction false} WithoutIdempotent(s: seq<Layer>, ids: set<LayerId>)
    ensures Without(Without(s, ids), ids) == Without(s, ids)
  {
    WithoutAbsent(Without(s, ids), ids);
  }

  /** Removal keeps the bottom layer at the bottom when it is not removed. */
  lemma WithoutKeepsBottom(s: seq<Layer>, ids: set<LayerId>)
    requires s != [] && s[0].id !in ids
    ensures Without(s, ids) != [] && Without(s, ids)[0] == s[0]
  {
  }

  lemma {:induction false} WithoutUnique(s: seq<Layer>, ids: set<LayerId>)
    requires UniqueIds(s)
    ensures UniqueIds(Without(s, ids))
  {
    if s != [] {
      var t := s[1..];
      assert UniqueIds(t) by {
        forall i, j | 0 <= i < |t| && 0 <= j < |t| && i != j ensures t[i].id != t[j].id {
          assert t[i] == s[i + 1] && t[j] == s[j + 1];
        }
      }
      WithoutUnique(t, ids);
      var r := Without(t, ids);
      if s[0].id !in ids {
        forall l | l in r ensures l.id != s[0].id {
          var k :| 0 <= k < |t| && t[k] == l;
          assert s[k + 1] == l;
        }
        var w := [s[0]] + r;
        forall i, j | 0 <= i < |w| && 0 <= j < |w| && i != j ensures w[i].id != w[j].id {
          if i > 0 && j > 0 {
            assert w[i] == r[i - 1] && w[j] == r[j - 1];
          } else if i == 0 {
            assert w[j] == r[j - 1] && w[j] in r;
          } else {
            assert w[i] == r[i - 1] && w[i] in r;
          }
        }
      }
    }
  }

  /** A unique list with `x` removed has no layer with identity `x` left, and
      every other layer is still there. */
  lemma WithoutOne(s: seq<Layer>, x: LayerId)
    ensures !Contains(Without(s, {x}), x)
    ensures forall id :: id != x ==> (Contains(Without(s, {x}), id) <==> Contains(s, id))
  {
    forall id | id != x ensures Contains(Without(s, {x}), id) <==> Contains(s, id) {
      if Contains(s, id) {
        var l :| l in s && l.id == id;
        assert l in Without(s, {x});
      }
    }
  }

  /** The movement operations only rearrange the list: `r` is a permutation of `s`. */
  ghost predicate Rearranged(s: seq<Layer>, r: seq<Layer>) {
    && |r| == |s|
    && multiset(r) == multiset(s)
    && (forall l :: l in r <==> l in s)
    && (forall id :: Contains(r, id) <==> Contains(s, id))
    && (UniqueIds(s) ==> UniqueIds(r))
  }

  /** Swapping two neighbouring layers keeps the multiset of layers. */
  lemma SwapPermutes(s: seq<Layer>, i: nat)
    requires i + 1 < |s|
    ensures multiset(s[i := s[i + 1]][i + 1 := s[i]]) == multiset(s)
  {
    var r := s[i := s[i + 1]][i + 1 := s[i]];
    assert s == s[..i] + [s[i], s[i + 1]] + s[i + 2..];
    assert r == s[..i] + [s[i + 1], s[i]] + s[i + 2..];
  }

  lemma ForwardRearranges(s: seq<Layer>, i: nat)
    requires i < |s|
    ensures Rearranged(s, Forward(s, i))
    ensures i + 1 < |s| ==> Forward(s, i)[i + 1] == s[i] && Forward(s, i)[i] == s[i + 1]
    ensures forall k :: 0 <= k < |s| && k != i && k != i + 1 ==> Forward(s, i)[k] == s[k]
  {
    var r := Forward(s, i);
    if i + 1 < |s| {
      SwapPermutes(s, i);
      forall l ensures l in r <==> l in s {
        if l in s {
          var k :| 0 <= k < |s| && s[k] == l;
          if k == i { assert r[i + 1] == l; } else if k == i + 1 { assert r[i] == l; } else { assert r[k] == l; }
        }
        if l in r {
          var k :| 0 <= k < |r| && r[k] == l;
          if k == i { assert s[i + 1] == l; } else if k == i + 1 { assert s[i] == l; } else { assert s[k] == l; }
        }
      }
    }
  }

  lemma BackwardRearranges(s: seq<Layer>, i: nat)
    requires i < |s|
    ensures Rearranged(s, Backward(s, i))
    ensures 0 < i ==> Backward(s, i)[i - 1] == s[i] && Backward(s, i)[i] == s[i - 1]
    ensures forall k :: 0 <= k < |s| && k != i && k + 1 != i ==> Backward(s, i)[k] == s[k]
  {
    if 0 < i {
      var j := i - 1;
      ForwardRearranges(s, j);
      assert Backward(s, i) == Forward(s, j) && j + 1 == i;
    }
  }

  /** Moving one layer `x` from between `a` and `b` to the bottom only rearranges the list. */
  lemma MoveToBackRearranges(a: seq<Layer>, x: Layer, b: seq<Layer>)
    ensures Rearranged(a + [x] + b, [x] + a + b)
  {
    var s := a + [x] + b;
    var i := |a|;
    var back := [x] + a + b;
    assert multiset(back) == multiset(s);
    assert forall l :: l in back <==> l in s;
    if UniqueIds(s) {
      forall k | 0 <= k < |back| ensures back[k] == s[if k == 0 then i else if k <= i then k - 1 else k] {
        if k == 0 {} else if k <= i { assert back[k] == a[k - 1]; } else { assert back[k] == b[k - 1 - i]; }
      }
    }
  }

  /** Moving one layer `x` from between `a` and `b` to the top only rearranges the list. */
  lemma MoveToFrontRearranges(a: seq<Layer>, x: Layer, b: seq<Layer>)
    ensures Rearranged(a + [x] + b, a + b + [x])
  {
    var s := a + [x] + b;
    var i := |a|;
    var front := a + b + [x];
    assert multiset(front) == multiset(s);
    assert forall l :: l in front <==> l in s;
    if UniqueIds(s) {
      forall k | 0 <= k < |front| ensures front[k] == s[if k == |s| - 1 then i else if k < i then k else k + 1] {
        if k == |s| - 1 {} else if k < i { assert front[k] == a[k]; } else { assert front[k] == b[k - i]; }
      }
    }
  }

  /** Removal from three concatenated pieces is removal from each. */
  lemma WithoutThree(p: seq<Layer>, q: seq<Layer>, r: seq<Layer>, ids: set<LayerId>)
    ensures Without(p + q + r, ids) == Without(p, ids) + Without(q, ids) + Without(r, ids)
  {
    WithoutConcat(p + q, r, ids);
    WithoutConcat(p, q, ids);
  }

  /** No layer of `a` or `b` shares the id of `x`. */
  predicate OthersDiffer(a: seq<Layer>, x: Layer, b: seq<Layer>) {
    (forall l :: l in a ==> l.id != x.id) && (forall l :: l in b ==> l.id != x.id)
  }

  // Removing `x` from either arrangement of `a`, `x`, `b` gives `a + b`.
  lemma RemoveMovedBack(a: seq<Layer>, x: Layer, b: seq<Layer>)
    requires OthersDiffer(a, x, b)
    ensures Without([x] + a + b, {x.id}) == a + b
  {
    var t := a + b;
    assert forall l :: l in t ==> l.id != x.id;
    WithoutAbsent(t, {x.id});
    WithoutConcat([x], t, {x.id});
    assert [x] + a + b == [x] + t;
  }

  lemma RemoveMovedFront(a: seq<Layer>, x: Layer, b: seq<Layer>)
    requires OthersDiffer(a, x, b)
    ensures Without(a + b + [x], {x.id}) == a + b
  {
    WithoutAbsent(a, {x.id});
    WithoutAbsent(b, {x.id});
    WithoutThree(a, b, [x], {x.id});
  }

  lemma RemoveMovedMiddle(a: seq<Layer>, x: Layer, b: seq<Layer>)
    requires OthersDiffer(a, x, b)
    ensures Without(a + [x] + b, {x.id}) == a + b
  {
    var t := [x] + b;
    WithoutAbsent(a, {x.id});
    WithoutAbsent(b, {x.id});
    WithoutConcat([x], b, {x.id});
    WithoutConcat(a, t, {x.id});
    assert a + [x] + b == a + t;
  }

  /** In a list with unique ids, no layer other than `s[i]` has its id. */
  lemma OthersHaveOtherIds(s: seq<Layer>, i: nat)
    requires i < |s| && UniqueIds(s)
    ensures OthersDiffer(s[..i], s[i], s[i + 1..])
  {
    forall l | l in s[..i] ensures l.id != s[i].id {
      var k :| 0 <= k < i && s[..i][k] == l;
      assert l == s[k];
    }
    forall l | l in s[i + 1..] ensures l.id != s[i].id {
      var k :| 0 <= k < |s| - i - 1 && s[i + 1..][k] == l;
      assert l == s[i + 1 + k];
    }
  }

  lemma ToBackIsMoveOne(s: seq<Layer>, i: nat)
    requires i < |s|
    ensures s == s[..i] + [s[i]] + s[i + 1..]
    ensures ToBack(s, i) == [s[i]] + s[..i] + s[i + 1..]
  {
    var a, x, b := s[..i], s[i], s[i + 1..];
    assert s == a + [x] + b;
  }

  lemma ToBackMembers(s: seq<Layer>, i: nat)
    requires i < |s|
    ensures Rearranged(s, ToBack(s, i))
  {
    ToBackIsMoveOne(s, i);
    MoveToBackRearranges(s[..i], s[i], s[i + 1..]);
  }

  lemma ToBackKeepsOthers(s: seq<Layer>, i: nat)
    requires i < |s| && UniqueIds(s)
    ensures Without(ToBack(s, i), {s[i].id}) == Without(s, {s[i].id})
  {
    ToBackIsMoveOne(s, i);
    OthersHaveOtherIds(s, i);
    RemoveMovedBack(s[..i], s[i], s[i + 1..]);
    RemoveMovedMiddle(s[..i], s[i], s[i + 1..]);
  }

  lemma ToFrontIsMoveOne(s: seq<Layer>, i: nat)
    requires i < |s|
    ensures s == s[..i] + [s[i]] + s[i + 1..]
    ensures ToFront(s, i) == s[..i] + s[i + 1..] + [s[i]]
  {
    var a, x, b := s[..i], s[i], s[i + 1..];
    assert s == a + [x] + b;
  }

  lemma ToFrontMembers(s: seq<Layer>, i: nat)
    requires i < |s|
    ensures Rearranged(s, ToFront(s, i))
  {
    ToFrontIsMoveOne(s, i);
    MoveToFrontRearranges(s[..i], s[i], s[i + 1..]);
  }

  lemma ToFrontKeepsOthers(s: seq<Layer>, i: nat)
    requires i < |s| && UniqueIds(s)
    ensures Without(ToFront(s, i), {s[i].id}) == Without(s, {s[i].id})
  {
    ToFrontIsMoveOne(s, i);
    OthersHaveOtherIds(s, i);
    RemoveMovedFront(s[..i], s[i], s[i + 1..]);
    RemoveMovedMiddle(s[..i], s[i], s[i + 1..]);
  }

  /** Sending to the back puts the layer at index 0 and keeps every other
      layer in its relative order. */
  lemma ToBackRearranges(s: seq<Layer>, i: nat)
    requires i < |s|
    ensures Rearranged(s, ToBack(s, i))
    ensures ToBack(s, i)[0] == s[i]
    ensures UniqueIds(s) ==> Without(ToBack(s, i), {s[i].id}) == Without(s, {s[i].id})
    ensures i == 0 ==> ToBack(s, i) == s
  {
    ToBackMembers(s, i);
    if UniqueIds(s) {
      ToBackKeepsOthers(s, i);
    }
    if i == 0 {
      assert s[..i] == [];
    }
  }

  /** Bringing to the front puts the layer at the last index and keeps every
      other layer in its relative order. */
  lemma ToFrontRearranges(s: seq<Layer>, i: nat)
    requires i < |s|
    ensures Rearranged(s, ToFront(s, i))
    ensures ToFront(s, i)[|s| - 1] == s[i]
    ensures UniqueIds(s) ==> Without(ToFront(s, i), {s[i].id}) == Without(s, {s[i].id})
    ensures i == |s| - 1 ==> ToFront(s, i) == s
  {
    ToFrontMembers(s, i);
    if UniqueIds(s) {
      ToFrontKeepsOthers(s, i);
    }
    if i == |s| - 1 {
      assert s[i + 1..] == [];
    }
  }

  /** `ensurePhotoOnBottom`, as a list function: with the photo on the canvas it
      ends at index 0 and the other layers keep their order; otherwise nothing moves. */
  lemma PhotoToBottomSpec(s: seq<Layer>, photo: Option<LayerId>)
    requires UniqueIds(s)
    ensures Rearranged(s, PhotoToBottom(s, photo))
    ensures photo.Some? && Contains(s, photo.value) ==>
      PhotoToBottom(s, photo)[0].id == photo.value &&
      Without(PhotoToBottom(s, photo), {photo.value}) == Without(s, {photo.value})
    ensures !(photo.Some? && Contains(s, photo.value)) ==> PhotoToBottom(s, photo) == s
    ensures photo.Some? && s != [] && s[0].id == photo.value ==> PhotoToBottom(s, photo) == s
  {
    if photo.Some? && Contains(s, photo.value) {
      var i := IndexOf(s, photo.value);
      ToBackRearranges(s, i);
    }
  }
}

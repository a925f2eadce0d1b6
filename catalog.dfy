/**
 * The accessory catalog: a read-only list of overlay definitions, each with
 * its asset path and its default placement hints.
 */
module Catalog {
  import opened Wrappers

  datatype AccessoryCategory = Hats | Glasses | Seasonal

  datatype AccessoryDef = AccessoryDef(
    id: string,
    name: string,
    category: AccessoryCategory,
    src: string,
    suggestedY: real,          // vertical centre, as a fraction of canvas height
    suggestedWidthRatio: real  // default width, as a fraction of canvas width
  )

  /** The public URL prefix under which every accessory image is served. */
  const AssetDir: string := "/pfp/accessories/"

  const Accessories: seq<AccessoryDef> := [
    AccessoryDef("liquidmas-hat", "Merry Liquidmas Hat", Seasonal,
                 "/pfp/accessories/liquidmas-hat.png", 0.24, 0.82),
    AccessoryDef("cap-liquidator-angle-2", "Liquidator Cap (Angle 2)", Hats,
                 "/pfp/accessories/cap-liquidator-angle-2.png", 0.3, 0.86),
    AccessoryDef("cap-liquidator-front", "Liquidator Cap (Front)", Hats,
                 "/pfp/accessories/cap-liquidator-front.png", 0.3, 0.78)
  ]

  /** `Array.prototype.find` by id: the first entry whose id matches, if any. */
  function FindById(catalog: seq<AccessoryDef>, id: string): (r: Option<AccessoryDef>)
    ensures r.Some? ==> r.value in catalog && r.value.id == id
    ensures r.None? <==> forall d :: d in catalog ==> d.id != id
    ensures r.Some? ==> exists k :: 0 <= k < |catalog| && catalog[k] == r.value &&
                          forall j :: 0 <= j < k ==> catalog[j].id != id
  {
    if catalog == [] then None
    else if catalog[0].id == id then Some(catalog[0])
    else
      var r := FindById(catalog[1..], id);
      assert forall d :: d in catalog ==> d == catalog[0] || d in catalog[1..];
      r
  }

  /** No two entries of `catalog` share an id. */
  predicate DistinctIds(catalog: seq<AccessoryDef>) {
    forall i, j :: 0 <= i < |catalog| && 0 <= j < |catalog| && i != j ==> catalog[i].id != catalog[j].id
  }

  const MissingAssetLead: string := "Accessory image not found: "

  /** The message shown when an accessory image cannot be loaded: it quotes the
      asset path that failed, right after its lead text, and then names the
      public directory the catalog's asset paths are served from. */
  function MissingAssetMessage(src: string): (m: string)
    ensures |m| > |MissingAssetLead| + |src|
    ensures m[..|MissingAssetLead|] == MissingAssetLead
    ensures m[|MissingAssetLead|..|MissingAssetLead| + |src|] == src
    ensures m[|MissingAssetLead| + |src|..] == ". Put the PNG files in public" + AssetDir + "."
  {
    PublicDirSpelling();
    MissingAssetLead + src + ". Put the PNG files in public/pfp/accessories/."
  }

  lemma CatalogIdsDistinct()
    ensures DistinctIds(Accessories)
  {
    var a := Accessories;
    assert |a[0].id| == 13 && |a[1].id| == 22 && |a[2].id| == 20;
  }

  /** With distinct ids, looking an entry up by its own id returns that entry. */
  lemma {:induction false} FindByIdOfEntry(catalog: seq<AccessoryDef>, k: nat)
    requires DistinctIds(catalog) && k < |catalog|
    ensures FindById(catalog, catalog[k].id) == Some(catalog[k])
  {
    if k > 0 {
      assert catalog[0].id != catalog[k].id;
      var tail := catalog[1..];
      assert DistinctIds(tail) by {
        forall i, j | 0 <= i < |tail| && 0 <= j < |tail| && i != j
          ensures tail[i].id != tail[j].id
        {
          assert tail[i] == catalog[i + 1] && tail[j] == catalog[j + 1];
        }
      }
      FindByIdOfEntry(tail, k - 1);
    }
  }

  /** The reset handler's lookup identifies exactly the entry an accessory was made from. */
  lemma CatalogLookupIsExact(d: AccessoryDef)
    requires d in Accessories
    ensures FindById(Accessories, d.id) == Some(d)
  {
    CatalogIdsDistinct();
    var k :| 0 <= k < |Accessories| && Accessories[k] == d;
    FindByIdOfEntry(Accessories, k);
  }

  lemma CatalogPlacementHints()
    ensures forall d :: d in Accessories ==> 0.0 <= d.suggestedY <= 1.0
    ensures forall d :: d in Accessories ==> 0.0 < d.suggestedWidthRatio <= 1.0
  {
  }

  lemma PublicDirSpelling()
    ensures ". Put the PNG files in public" + AssetDir + "." == ". Put the PNG files in public/pfp/accessories/."
  {
  }

  // The three shipped asset paths spelled as directory, id and extension.
  lemma HatSpelling()
    ensures AssetDir + "liquidmas-hat" + ".png" == "/pfp/accessories/liquidmas-hat.png"
  {
  }

  lemma AngleCapSpelling()
    ensures AssetDir + "cap-liquidator-angle-2" + ".png" == "/pfp/accessories/cap-liquidator-angle-2.png"
  {
  }

  lemma FrontCapSpelling()
    ensures AssetDir + "cap-liquidator-front" + ".png" == "/pfp/accessories/cap-liquidator-front.png"
  {
  }

  /** Every asset path is the catalog directory, the entry's id and `.png`. */
  lemma CatalogSources()
    ensures forall d :: d in Accessories ==> d.src == AssetDir + d.id + ".png"
  {
    HatSpelling();
    AngleCapSpelling();
    FrontCapSpelling();
    forall d | d in Accessories ensures d.src == AssetDir + d.id + ".png" {
      assert d == Accessories[0] || d == Accessories[1] || d == Accessories[2];
    }
  }

}

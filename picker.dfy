/**
 * The accessory picker: the category chips ("All", then each category in
 * order of first appearance in the catalog) and the list of accessories a
 * chip shows.
 */
module Picker {
  import opened Catalog

  datatype Chip = All | Only(category: AccessoryCategory)

  predicate NoDuplicates<T(==)>(s: seq<T>) {
    forall i, j :: 0 <= i < j < |s| ==> s[i] != s[j]
  }

  /** `Array.from(new Set(s))`: each distinct value once, in order of first appearance. */
  function Distinct(s: seq<AccessoryCategory>): (r: seq<AccessoryCategory>)
    ensures forall x :: x in r <==> x in s
    ensures NoDuplicates(r)
  {
    if s == [] then []
    else
      var init := s[..|s| - 1];
      var last := s[|s| - 1];
      assert s == init + [last];
      var r := Distinct(init);
      if last in r then r else r + [last]
  }

  /** Index of the first occurrence of `x` in `s`. */
  function FirstIndex(s: seq<AccessoryCategory>, x: AccessoryCategory): (k: nat)
    requires x in s
    ensures k < |s| && s[k] == x && forall j :: 0 <= j < k ==> s[j] != x
  {
    if s[0] == x then 0 else FirstIndex(s[1..], x) + 1
  }

  lemma FirstIndexInPrefix(s: seq<AccessoryCategory>, n: nat, x: AccessoryCategory)
    requires n <= |s| && x in s[..n]
    ensures FirstIndex(s, x) == FirstIndex(s[..n], x)
  {
    var k := FirstIndex(s[..n], x);
    var k' := FirstIndex(s, x);
    assert s[k] == x;
  }

  /** The distinct values come out in order of their first appearance. */
  lemma {:induction false} DistinctKeepsFirstAppearanceOrder(s: seq<AccessoryCategory>, i: nat, j: nat)
    requires i < j < |Distinct(s)|
    ensures Distinct(s)[i] in s && Distinct(s)[j] in s
    ensures FirstIndex(s, Distinct(s)[i]) < FirstIndex(s, Distinct(s)[j])
  {
    var n := |s| - 1;
    var init, last := s[..n], s[n];
    assert s == init + [last];
    var r := Distinct(init);
    if j < |r| {
      DistinctKeepsFirstAppearanceOrder(init, i, j);
      FirstIndexInPrefix(s, n, r[i]);
      FirstIndexInPrefix(s, n, r[j]);
    } else {
      // r[i] is in the prefix, last is new: its first index is n
      assert Distinct(s) == r + [last] && Distinct(s)[j] == last && last !in init;
      FirstIndexInPrefix(s, n, r[i]);
      assert FirstIndex(s, last) == n;
    }
  }

  function CategoriesOf(catalog: seq<AccessoryDef>): (r: seq<AccessoryCategory>)
    ensures |r| == |catalog| && forall k :: 0 <= k < |catalog| ==> r[k] == catalog[k].category
  {
    seq(|catalog|, k requires 0 <= k < |catalog| => catalog[k].category)
  }

  /** The `categories` memo: "All" followed by the distinct categories. */
  function Chips(catalog: seq<AccessoryDef>): (r: seq<Chip>)
    ensures |r| >= 1 && r[0] == All
    ensures forall k :: 1 <= k < |r| ==> r[k].Only?
  {
    var d := Distinct(CategoriesOf(catalog));
    [All] + seq(|d|, k requires 0 <= k < |d| => Only(d[k]))
  }

  /** The `accessoriesFiltered` memo: the whole catalog for "All", otherwise the
      entries of the chosen category, in catalog order. */
  function Filtered(catalog: seq<AccessoryDef>, chip: Chip): (r: seq<AccessoryDef>)
    ensures |r| <= |catalog|
    ensures chip == All ==> r == catalog
    ensures forall d :: d in r <==> d in catalog && (chip.Only? ==> d.category == chip.category)
  {
    if chip == All || catalog == [] then catalog
    else
      assert catalog == [catalog[0]] + catalog[1..];
      (if catalog[0].category == chip.category then [catalog[0]] else []) + Filtered(catalog[1..], chip)
  }

  /** Filtering one entry keeps it exactly when the chip admits its category. */
  lemma FilteredSingle(d: AccessoryDef, chip: Chip)
    ensures Filtered([d], chip) == if chip == All || d.category == chip.category then [d] else []
  {
    assert [d][1..] == [];
  }

  /** Filtering distributes over concatenation: together with `FilteredSingle`
      this says the kept entries appear in catalog order, each as often as in
      the catalog. */
  lemma {:induction false} FilteredConcat(a: seq<AccessoryDef>, b: seq<AccessoryDef>, chip: Chip)
    ensures Filtered(a + b, chip) == Filtered(a, chip) + Filtered(b, chip)
  {
    if chip == All || a == [] {
      assert a == [] ==> a + b == b;
    } else {
      var head := if a[0].category == chip.category then [a[0]] else [];
      assert (a + b)[0] == a[0] && (a + b)[1..] == a[1..] + b;
      assert Filtered(a + b, chip) == head + Filtered(a[1..] + b, chip);
      assert Filtered(a, chip) == head + Filtered(a[1..], chip);
      FilteredConcat(a[1..], b, chip);
    }
  }

  /** The chips are "All" first and then exactly once each category that some
      catalog entry has. */
  lemma ChipsSpec(catalog: seq<AccessoryDef>)
    ensures var c := Chips(catalog); |c| >= 1 && c[0] == All && NoDuplicates(c)
    ensures forall cat :: Only(cat) in Chips(catalog) <==> exists d :: d in catalog && d.category == cat
  {
    var cats := CategoriesOf(catalog);
    var d := Distinct(cats);
    var c := Chips(catalog);
    assert forall k :: 1 <= k < |c| ==> c[k] == Only(d[k - 1]);
    forall cat ensures Only(cat) in c <==> exists e :: e in catalog && e.category == cat {
      if Only(cat) in c {
        var k :| 0 <= k < |c| && c[k] == Only(cat);
        assert d[k - 1] == cat && cat in cats;
        var m :| 0 <= m < |cats| && cats[m] == cat;
        assert catalog[m] in catalog;
      }
      if exists e :: e in catalog && e.category == cat {
        var e :| e in catalog && e.category == cat;
        var m :| 0 <= m < |catalog| && catalog[m] == e;
        assert cats[m] == cat && cat in d;
        var k :| 0 <= k < |d| && d[k] == cat;
        assert c[k + 1] == Only(cat);
      }
    }
  }

  /** Every category chip shows at least one accessory. */
  lemma CategoryChipsAreNonEmpty(catalog: seq<AccessoryDef>, chip: Chip)
    requires chip in Chips(catalog) && catalog != []
    ensures Filtered(catalog, chip) != []
  {
    ChipsSpec(catalog);
    if chip.Only? {
      var e :| e in catalog && e.category == chip.category;
      assert e in Filtered(catalog, chip);
    }
  }

  /** The distinct categories of the shipped catalog's category list. */
  lemma DistinctOfShipped()
    ensures Distinct([Seasonal, Hats, Hats]) == [Seasonal, Hats]
  {
    var s := [Seasonal, Hats, Hats];
    assert s[..2] == [Seasonal, Hats] && s[..2][..1] == [Seasonal] && s[..2][..1][..0] == [];
    assert Distinct(s[..2][..1]) == [Seasonal];
    assert Distinct(s[..2]) == [Seasonal, Hats];
  }

  /** With the shipped catalog the chips are All, Seasonal, Hats: no Glasses chip. */
  lemma ShippedChips()
    ensures Chips(Accessories) == [All, Only(Seasonal), Only(Hats)]
  {
    assert CategoriesOf(Accessories) == [Seasonal, Hats, Hats];
    DistinctOfShipped();
  }
}

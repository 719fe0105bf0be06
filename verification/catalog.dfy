/** The built-in dhikr catalog and the list screen's expand/collapse state. */
module Catalog {
  import opened Validation
  import opened Lists

  /** One catalog entry; `count` is the repetition count offered as a default target. */
  datatype Dhikr = Dhikr(arabic: string, meaning: string, why: string, count: nat)

  /** A titled group of catalog entries. */
  datatype Category = Category(title: string, items: seq<Dhikr>)

  /** One row group of the section list: the category's title, its entries when
      expanded (none when collapsed) and its position in the catalog. */
  datatype Section = Section(title: string, data: seq<Dhikr>, index: nat)

  /** The catalog, in display order. */
  const DhikrData: seq<Category> := [
    Category("For Peace & Calm", [
      Dhikr("سبحان الله", "Glory be to Allah", "Clear the mind and gain peace.", 100),
      Dhikr("الحمد لله", "All praise is due to Allah", "Cultivate gratitude.", 100)
    ]),
    Category("For Forgiveness", [
      Dhikr("أستغفر الله", "I seek forgiveness from Allah", "Cleanse the soul and receive mercy.", 100)
    ]),
    Category("For Gratitude", [
      Dhikr("سبحان الله وبحمده", "Glory be to Allah and Praise be to Him", "Magnifies blessings.", 100)
    ]),
    Category("For Protection", [
      Dhikr("بسم الله الذي لا يضر", "In the name of Allah who does not harm", "A prayer for protection.", 3)
    ])
  ]

  /** `d` is one of the catalog's entries. */
  predicate InCatalog(d: Dhikr) {
    exists c, k :: 0 <= c < |DhikrData| && 0 <= k < |DhikrData[c].items| && DhikrData[c].items[k] == d
  }

  /** Every catalog entry suggests a positive count, and none above MaxCount. */
  lemma CatalogCountsPositive(d: Dhikr)
    requires InCatalog(d)
    ensures 0 < d.count <= MaxCount
  {
    var c, k :| 0 <= c < |DhikrData| && 0 <= k < |DhikrData[c].items| && DhikrData[c].items[k] == d;
    assert c == 0 || c == 1 || c == 2 || c == 3;
  }

  /** `xs` without any occurrence of `x`, the others kept in order
      (`xs.filter(i => i !== x)`). */
  function Without(xs: seq<int>, x: int): (r: seq<int>)
    ensures forall y :: y in r <==> y in xs && y != x
    ensures |r| <= |xs|
  {
    if |xs| == 0 then []
    else if xs[0] == x then Without(xs[1..], x)
    else [xs[0]] + Without(xs[1..], x)
  }

  /** `toggleExpand(index)`: collapse `index` if it is expanded, expand it otherwise. */
  function ToggleExpand(expanded: seq<int>, index: int): (r: seq<int>)
    ensures index in r <==> index !in expanded
    ensures forall j :: j != index ==> (j in r <==> j in expanded)
  {
    if index in expanded then Without(expanded, index) else expanded + [index]
  }

  /** Removing occurrences keeps a duplicate-free list duplicate-free. */
  lemma {:induction false} WithoutNoDuplicates(xs: seq<int>, x: int)
    requires NoDuplicates(xs)
    ensures NoDuplicates(Without(xs, x))
  {
    if |xs| > 0 {
      WithoutNoDuplicates(xs[1..], x);
      var rest := Without(xs[1..], x);
      if xs[0] != x {
        assert xs[0] !in xs[1..];
        assert xs[0] !in rest;
        var r := [xs[0]] + rest;
        forall i, j | 0 <= i < j < |r|
          ensures r[i] != r[j]
        {
          if i > 0 {
            assert r[i] == rest[i - 1] && r[j] == rest[j - 1];
          } else {
            assert r[j] in rest;
          }
        }
      }
    }
  }

  /** A toggle never introduces a duplicate: it appends only an absent index. */
  lemma ToggleKeepsNoDuplicates(expanded: seq<int>, index: int)
    requires NoDuplicates(expanded)
    ensures NoDuplicates(ToggleExpand(expanded, index))
  {
    if index in expanded {
      WithoutNoDuplicates(expanded, index);
    }
  }

  /** Toggling the same index twice restores the set of expanded sections. */
  lemma ToggleTwiceRestoresMembership(expanded: seq<int>, index: int)
    ensures forall j :: j in ToggleExpand(ToggleExpand(expanded, index), index) <==> j in expanded
  {
  }

  /** The section list: one section per category, with the category's entries
      shown only while its index is expanded. */
  function Sections(expanded: seq<int>): (r: seq<Section>)
    ensures |r| == |DhikrData|
    ensures forall i :: 0 <= i < |r| ==>
              r[i].title == DhikrData[i].title && r[i].index == i
              && (i in expanded ==> r[i].data == DhikrData[i].items)
              && (i !in expanded ==> r[i].data == [])
  {
    seq(|DhikrData|, i requires 0 <= i < |DhikrData| =>
      Section(DhikrData[i].title, if i in expanded then DhikrData[i].items else [], i))
  }

  /** Toggling one header opens or closes exactly that section and leaves
      every other section as it was. */
  lemma ToggleChangesOneSection(expanded: seq<int>, index: int)
    ensures var before := Sections(expanded);
            var after := Sections(ToggleExpand(expanded, index));
            && (forall j :: 0 <= j < |after| && j != index ==> after[j] == before[j])
            && (0 <= index < |after| ==>
                  (after[index].data == [] <==> before[index].data != []))
  {
    var before := Sections(expanded);
    var after := Sections(ToggleExpand(expanded, index));
    if 0 <= index < |after| {
      assert |DhikrData[index].items| > 0;
    }
  }
}

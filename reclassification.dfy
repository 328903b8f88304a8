/**
 * `reclassify_raster`: every pixel of the first band goes through an ordered
 * list of (value set -> new value) rules; the first rule whose set holds the
 * pixel decides, and a pixel in no set becomes the raster's nodata value
 * (`np.select(conditions, vals, default=nodata_value)`).
 */
module Reclassification {
  import RowMajor

  /** One `np.isin(data, values)` condition together with its entry of `vals`. */
  datatype Rule = Rule(values: set<int>, newValue: int)

  /** The rules that map the cluster ids onto the Koppen-Geiger main zones; 0 stays noise and 6
      collects the mixed zones. */
  const ZoneRules: seq<Rule> := [
    Rule({0}, 0),
    Rule({6, 8}, 1),
    Rule({5}, 2),
    Rule({7}, 3),
    Rule({4}, 4),
    Rule({1, 3}, 5),
    Rule({2}, 6)
  ]

  /** `np.select` for one pixel: the new value of the first rule that holds x, else the default. */
  function Select(rules: seq<Rule>, x: int, default: int): (y: int)
    ensures (forall k :: 0 <= k < |rules| ==> x !in rules[k].values) ==> y == default
    ensures forall k :: 0 <= k < |rules| && x in rules[k].values ==>
      (forall j :: 0 <= j < k ==> x !in rules[j].values) ==> y == rules[k].newValue
  {
    if |rules| == 0 then default
    else if x in rules[0].values then rules[0].newValue
    else Select(rules[1..], x, default)
  }

  /** No value belongs to two rules. */
  predicate Disjoint(rules: seq<Rule>)
  {
    forall i, j :: 0 <= i < j < |rules| ==> rules[i].values !! rules[j].values
  }

  /** With disjoint rules the order does not matter: any rule that holds x decides. */
  lemma DisjointAnyMatch(rules: seq<Rule>, x: int, default: int, k: nat)
    requires Disjoint(rules)
    requires k < |rules| && x in rules[k].values
    ensures Select(rules, x, default) == rules[k].newValue
  {
    forall j | 0 <= j < k
      ensures x !in rules[j].values
    {
      assert rules[j].values !! rules[k].values;
    }
  }

  lemma ZoneRulesDisjoint()
    ensures Disjoint(ZoneRules)
  {
  }

  /** The reclassification of one pixel: every cluster id 0..8 lands on a zone 0..6, and any
      other value on the nodata value. */
  function ReclassifyPixel(x: int, nodata: int): (y: int)
    ensures 0 <= x <= 8 ==> 0 <= y <= 6
    ensures x < 0 || x > 8 ==> y == nodata
  {
    var rs := ZoneRules;
    assert rs[0].values == {0} && rs[1].values == {6, 8} && rs[2].values == {5} && rs[3].values == {7};
    assert rs[4].values == {4} && rs[5].values == {1, 3} && rs[6].values == {2};
    Select(ZoneRules, x, nodata)
  }

  /** The zone table pixel by pixel: 0 -> 0, {6, 8} -> 1, 5 -> 2, 7 -> 3, 4 -> 4, {1, 3} -> 5,
      2 -> 6, and every other value -> nodata. */
  lemma ZoneTable(x: int, nodata: int)
    ensures x == 0 ==> ReclassifyPixel(x, nodata) == 0
    ensures x == 6 || x == 8 ==> ReclassifyPixel(x, nodata) == 1
    ensures x == 5 ==> ReclassifyPixel(x, nodata) == 2
    ensures x == 7 ==> ReclassifyPixel(x, nodata) == 3
    ensures x == 4 ==> ReclassifyPixel(x, nodata) == 4
    ensures x == 1 || x == 3 ==> ReclassifyPixel(x, nodata) == 5
    ensures x == 2 ==> ReclassifyPixel(x, nodata) == 6
    ensures x < 0 || x > 8 ==> ReclassifyPixel(x, nodata) == nodata
  {
    var rs := ZoneRules;
    assert rs[0].values == {0} && rs[1].values == {6, 8} && rs[2].values == {5} && rs[3].values == {7};
    assert rs[4].values == {4} && rs[5].values == {1, 3} && rs[6].values == {2};
    if 0 <= x <= 8 {
      assert x in rs[0].values || x in rs[1].values || x in rs[2].values || x in rs[3].values ||
             x in rs[4].values || x in rs[5].values || x in rs[6].values;
    }
  }

  /** `reclassified_data`: the same shape as the input, each pixel reclassified on its own. */
  function ReclassifyRaster(data: seq<seq<int>>, nodata: int, height: nat, width: nat): (out: seq<seq<int>>)
    requires RowMajor.IsGrid(data, height, width)
    ensures RowMajor.IsGrid(out, height, width)
    ensures forall r, c :: 0 <= r < height && 0 <= c < width ==>
      out[r][c] == ReclassifyPixel(data[r][c], nodata)
  {
    seq(height, r requires 0 <= r < height =>
      seq(width, c requires 0 <= c < width => ReclassifyPixel(data[r][c], nodata)))
  }
}

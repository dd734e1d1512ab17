/**
 * The colouring loop of `plot_distribution`: each top-level province shape
 * gets the severity colour of the first region name found in its owner
 * name, or the "not reported" colour. Drawing a polygon is modelled as
 * appending a `Patch` to the output.
 */
module Choropleth {
  import opened Wrappers
  import opened Values
  import Text
  import opened Regions

  /** The colour of a province no region name matches. */
  const NotReported: string := "#7FFFAA"

  /** The five severity colours, from no cases to more than 1000. */
  const Palette: seq<string> := ["#f0f0f0", "#ffaa85", "#ff7b69", "#bf2121", "#7f1818"]

  /** The upper ends of the first four severity bands. */
  const Thresholds: seq<int> := [0, 10, 100, 1000]

  /** The if/elif chain that picks a province's colour from its count. */
  function Bucket(n: int): string {
    if n == 0 then "#f0f0f0"
    else if n <= 10 then "#ffaa85"
    else if n <= 100 then "#ff7b69"
    else if n <= 1000 then "#bf2121"
    else "#7f1818"
  }

  /** How many of the thresholds lie below `n`. */
  function CountBelow(ts: seq<int>, n: int): (c: nat)
    ensures c <= |ts|
  {
    if ts == [] then 0 else (if ts[0] < n then 1 else 0) + CountBelow(ts[1..], n)
  }

  /**
   * For a count of at least 0 the colour is the palette entry indexed by the
   * number of band ends it exceeds; a negative count falls in the "1-10" band.
   */
  lemma BucketByThresholds(n: int)
    ensures n >= 0 ==> Bucket(n) == Palette[CountBelow(Thresholds, n)]
    ensures n < 0 ==> Bucket(n) == Palette[1]
  {
    var t1 := Thresholds[1..];
    var t2 := t1[1..];
    var t3 := t2[1..];
    assert t1 == [10, 100, 1000] && t2 == [100, 1000] && t3 == [1000] && t3[1..] == [];
    assert CountBelow(t3, n) == if 1000 < n then 1 else 0;
    assert CountBelow(t2, n) == (if 100 < n then 1 else 0) + CountBelow(t3, n);
    assert CountBelow(t1, n) == (if 10 < n then 1 else 0) + CountBelow(t2, n);
  }

  /** Each colour is taken by exactly one band of counts, and none is the "not reported" colour. */
  lemma BucketBands(n: int)
    ensures Bucket(n) == Palette[0] <==> n == 0
    ensures Bucket(n) == Palette[1] <==> n != 0 && n <= 10
    ensures Bucket(n) == Palette[2] <==> 11 <= n <= 100
    ensures Bucket(n) == Palette[3] <==> 101 <= n <= 1000
    ensures Bucket(n) == Palette[4] <==> n > 1000
    ensures Bucket(n) != NotReported
  {
  }

  /** The colour at both sides of every band end. */
  lemma BucketBoundaries()
    ensures Bucket(0) == "#f0f0f0"
    ensures Bucket(1) == "#ffaa85" && Bucket(10) == "#ffaa85" && Bucket(-1) == "#ffaa85"
    ensures Bucket(11) == "#ff7b69" && Bucket(100) == "#ff7b69"
    ensures Bucket(101) == "#bf2121" && Bucket(1000) == "#bf2121"
    ensures Bucket(1001) == "#7f1818"
  {
  }

  /** The OWNER and FCNAME fields of one record of the province shapefile. */
  datatype ShapeInfo = ShapeInfo(owner: string, fcname: string)

  /** One filled polygon: the index of its shape and its colour. */
  datatype Patch = Patch(shape: nat, colour: string)

  /** What the loop leaves behind: the polygons added, and the global `count_iter`. */
  datatype Drawing = Drawing(patches: seq<Patch>, countIter: nat)

  /** The padding character of the shapefile's text fields. */
  const Nul: char := '\0'

  /** `info['OWNER'].strip('\x00')` */
  function Province(info: ShapeInfo): string {
    Text.Strip(info.owner, Nul)
  }

  /** Only shapes whose owner is their own full name are drawn; islands listed under a province are not. */
  predicate IsDrawn(info: ShapeInfo) {
    Province(info) == Text.Strip(info.fcname, Nul)
  }

  /** The first `j` keys are all strings and none of them occurs in `pname`. */
  predicate Misses(keys: seq<Value>, pname: string, j: int)
    requires 0 <= j <= |keys|
  {
    forall i :: 0 <= i < j ==> keys[i].Str? && !Text.Contains(pname, keys[i].s)
  }

  /**
   * `for prov_name in keys: if prov_name in pname: ... break`: the index of
   * the first key that occurs in `pname`, `None` if none does, or the
   * `TypeError` of testing a key that is not a string.
   */
  function FirstMatch(keys: seq<Value>, pname: string): (r: Result<Option<nat>, Error>)
    ensures r.Success? && r.value.Some? ==> r.value.value < |keys|
  {
    if keys == [] then Success(None)
    else
      match keys[0]
      case Str(k) =>
        if Text.Contains(pname, k) then Success(Some(0))
        else
          var rest :- FirstMatch(keys[1..], pname);
          if rest.Some? then Success(Some(rest.value + 1)) else Success(None)
      case _ => Failure(TypeError)
  }

  /** When no key occurs in `pname` (and every key is a string) the scan finds nothing. */
  lemma {:induction false} FirstMatchNone(keys: seq<Value>, pname: string)
    requires Misses(keys, pname, |keys|)
    ensures FirstMatch(keys, pname) == Success(None)
  {
    if keys != [] {
      assert forall i :: 0 <= i < |keys| - 1 ==> keys[1..][i] == keys[i + 1];
      FirstMatchNone(keys[1..], pname);
    }
  }

  /**
   * The scan stops at the first key that is not missed: with a `TypeError`
   * if it is not a string, with its index if it occurs in `pname`.
   */
  lemma {:induction false} FirstMatchAt(keys: seq<Value>, pname: string, j: int)
    requires 0 <= j < |keys| && Misses(keys, pname, j)
    ensures !keys[j].Str? ==> FirstMatch(keys, pname) == Failure(TypeError)
    ensures keys[j].Str? && Text.Contains(pname, keys[j].s) ==> FirstMatch(keys, pname) == Success(Some(j))
  {
    if j > 0 {
      var rest := keys[1..];
      assert forall i :: 0 <= i < j - 1 ==> rest[i] == keys[i + 1];
      assert keys[0].Str? && !Text.Contains(pname, keys[0].s);
      assert rest[j - 1] == keys[j];
      FirstMatchAt(rest, pname, j - 1);
    }
  }

  /** The colour chosen for one drawn shape and the number of keys examined for it. */
  datatype Pick = Pick(colour: string, examined: nat)

  /**
   * The inner loop for one shape: the bucket colour of the first key found in
   * the owner name, after examining that many keys, or the "not reported"
   * colour after examining them all.
   */
  function ShapeColour(d: Dict, pname: string): (r: Result<Pick, Error>)
    requires d.Valid()
    ensures r.Success? ==> r.value.examined <= |d.keys|
    ensures r.Success? && |d.keys| > 0 ==> r.value.examined >= 1
  {
    var m :- FirstMatch(d.keys, pname);
    match m
    case None => Success(Pick(NotReported, |d.keys|))
    case Some(j) => Success(Pick(Bucket(d.values[d.keys[j]]), j + 1))
  }

  /** No key found: the "not reported" colour, after examining every key. */
  lemma ShapeColourNotReported(d: Dict, pname: string)
    requires d.Valid()
    requires Misses(d.keys, pname, |d.keys|)
    ensures ShapeColour(d, pname) == Success(Pick(NotReported, |d.keys|))
  {
    FirstMatchNone(d.keys, pname);
  }

  /**
   * The first key not missed decides: a key that is not a string raises
   * `TypeError`; a key found in the owner name gives the bucket colour of its
   * count, which is never the "not reported" colour, after examining j + 1 keys.
   */
  lemma ShapeColourAt(d: Dict, pname: string, j: int)
    requires d.Valid()
    requires 0 <= j < |d.keys| && Misses(d.keys, pname, j)
    ensures !d.keys[j].Str? ==> ShapeColour(d, pname) == Failure(TypeError)
    ensures d.keys[j].Str? && Text.Contains(pname, d.keys[j].s) ==>
      && d.keys[j] in d.values
      && ShapeColour(d, pname) == Success(Pick(Bucket(d.values[d.keys[j]]), j + 1))
      && Bucket(d.values[d.keys[j]]) != NotReported
  {
    FirstMatchAt(d.keys, pname, j);
    if d.keys[j].Str? && Text.Contains(pname, d.keys[j].s) {
      BucketBands(d.values[d.keys[j]]);
    }
  }

  /** The outer loop over all shapes: the polygons it adds and the final `count_iter`. */
  function ColourShapes(shapes: seq<ShapeInfo>, d: Dict): Result<Drawing, Error>
    requires d.Valid()
  {
    if shapes == [] then Success(Drawing([], 0))
    else
      var n := |shapes| - 1;
      var prev :- ColourShapes(shapes[..n], d);
      if !IsDrawn(shapes[n]) then Success(prev)
      else
        var pick :- ShapeColour(d, Province(shapes[n]));
        Success(Drawing(prev.patches + [Patch(n, pick.colour)], prev.countIter + pick.examined))
  }

  /** Every polygon belongs to a drawn shape and has the colour the inner loop picks for it. */
  lemma {:induction false} PatchesOfDrawnShapes(shapes: seq<ShapeInfo>, d: Dict, dr: Drawing)
    requires d.Valid()
    requires ColourShapes(shapes, d) == Success(dr)
    ensures forall p :: 0 <= p < |dr.patches| ==>
      && dr.patches[p].shape < |shapes| && IsDrawn(shapes[dr.patches[p].shape])
      && ShapeColour(d, Province(shapes[dr.patches[p].shape])).Success?
      && ShapeColour(d, Province(shapes[dr.patches[p].shape])).value.colour == dr.patches[p].colour
  {
    if shapes != [] {
      var n := |shapes| - 1;
      var init := shapes[..n];
      var prev := ColourShapes(init, d).value;
      PatchesOfDrawnShapes(init, d, prev);
      forall p | 0 <= p < |prev.patches|
        ensures dr.patches[p] == prev.patches[p] && init[prev.patches[p].shape] == shapes[prev.patches[p].shape]
      {
      }
    }
  }

  /** The polygons come in shapefile order, one per shape at most. */
  lemma {:induction false} PatchesInShapeOrder(shapes: seq<ShapeInfo>, d: Dict, dr: Drawing)
    requires d.Valid()
    requires ColourShapes(shapes, d) == Success(dr)
    ensures forall p :: 0 <= p < |dr.patches| ==> dr.patches[p].shape < |shapes|
    ensures forall p, q :: 0 <= p < q < |dr.patches| ==> dr.patches[p].shape < dr.patches[q].shape
  {
    if shapes != [] {
      var n := |shapes| - 1;
      var prev := ColourShapes(shapes[..n], d).value;
      PatchesInShapeOrder(shapes[..n], d, prev);
    }
  }

  /** Every drawn shape gets a polygon. */
  lemma {:induction false} EveryDrawnShapePatched(shapes: seq<ShapeInfo>, d: Dict, dr: Drawing)
    requires d.Valid()
    requires ColourShapes(shapes, d) == Success(dr)
    ensures forall i :: 0 <= i < |shapes| && IsDrawn(shapes[i]) ==>
      exists p :: 0 <= p < |dr.patches| && dr.patches[p].shape == i
  {
    if shapes != [] {
      var n := |shapes| - 1;
      var init := shapes[..n];
      var prev := ColourShapes(init, d).value;
      EveryDrawnShapePatched(init, d, prev);
      forall i | 0 <= i < |shapes| && IsDrawn(shapes[i])
        ensures exists p :: 0 <= p < |dr.patches| && dr.patches[p].shape == i
      {
        if i == n {
          assert dr.patches[|prev.patches|].shape == i;
        } else {
          assert init[i] == shapes[i];
          var p :| 0 <= p < |prev.patches| && prev.patches[p].shape == i;
          assert dr.patches[p].shape == i;
        }
      }
    }
  }

  /**
   * `count_iter` counts examined keys: at most all of them per drawn shape,
   * and at least one per drawn shape when the table is not empty.
   */
  lemma {:induction false} CountIterBounds(shapes: seq<ShapeInfo>, d: Dict, dr: Drawing)
    requires d.Valid()
    requires ColourShapes(shapes, d) == Success(dr)
    ensures dr.countIter <= |dr.patches| * |d.keys|
    ensures |d.keys| > 0 ==> dr.countIter >= |dr.patches|
  {
    if shapes != [] {
      var n := |shapes| - 1;
      var prev := ColourShapes(shapes[..n], d).value;
      CountIterBounds(shapes[..n], d, prev);
      if IsDrawn(shapes[n]) {
        assert (|prev.patches| + 1) * |d.keys| == |prev.patches| * |d.keys| + |d.keys|;
      }
    }
  }

  /** One more shape: a skipped shape leaves the drawing as it is, a drawn one adds its polygon. */
  lemma ColourStep(shapes: seq<ShapeInfo>, d: Dict, i: int, prev: Drawing)
    requires d.Valid()
    requires 0 <= i < |shapes|
    requires ColourShapes(shapes[..i], d) == Success(prev)
    ensures !IsDrawn(shapes[i]) ==> ColourShapes(shapes[..i + 1], d) == Success(prev)
    ensures IsDrawn(shapes[i]) && ShapeColour(d, Province(shapes[i])).Success? ==>
      var pick := ShapeColour(d, Province(shapes[i])).value;
      ColourShapes(shapes[..i + 1], d)
        == Success(Drawing(prev.patches + [Patch(i, pick.colour)], prev.countIter + pick.examined))
  {
    assert shapes[..i + 1][..i] == shapes[..i];
  }

  /** An exception while colouring one shape ends the whole loop with that exception. */
  lemma {:induction false} ColourFailure(shapes: seq<ShapeInfo>, d: Dict, i: int)
    requires d.Valid()
    requires 0 <= i < |shapes| && IsDrawn(shapes[i])
    requires ColourShapes(shapes[..i], d).Success?
    requires ShapeColour(d, Province(shapes[i])).Failure?
    ensures ColourShapes(shapes, d) == Failure(ShapeColour(d, Province(shapes[i])).error)
  {
    var n := |shapes| - 1;
    if i < n {
      assert shapes[..n][..i] == shapes[..i];
      assert shapes[..n][i] == shapes[i];
      ColourFailure(shapes[..n], d, i);
    } else {
      assert shapes[..n] == shapes[..i];
    }
  }

  /**
   * The inner loop of `plot_distribution` for one drawn shape: scan the
   * region keys in order with the `is_reported` flag, count each key
   * examined, and stop at the first key found in the owner name.
   */
  method ScanKeys(d: Dict, pname: string) returns (r: Result<Pick, Error>)
    requires d.Valid()
    ensures r == ShapeColour(d, pname)
  {
    var color := "";
    var isReported := false;
    var examined := 0;
    var j := 0;
    while j < |d.keys|
      invariant 0 <= j <= |d.keys|
      invariant !isReported
      invariant Misses(d.keys, pname, j)
      invariant examined == j
    {
      var provName := d.keys[j];
      examined := examined + 1;
      if !provName.Str? {
        ShapeColourAt(d, pname, j);
        return Failure(TypeError);
      }
      if Text.Contains(pname, provName.s) {
        ShapeColourAt(d, pname, j);
        isReported := true;
        color := Bucket(d.values[provName]);
        break;
      }
      j := j + 1;
    }
    if !isReported {
      ShapeColourNotReported(d, pname);
      color := NotReported;
    }
    r := Success(Pick(color, examined));
  }

  /**
   * The loop of `plot_distribution`: skip shapes that are not drawn, colour
   * the others, add one polygon per drawn shape and accumulate `count_iter`.
   */
  method PlotDistribution(shapes: seq<ShapeInfo>, d: Dict) returns (r: Result<Drawing, Error>)
    requires d.Valid()
    ensures r == ColourShapes(shapes, d)
  {
    var countIter: nat := 0;
    var patches: seq<Patch> := [];
    var i := 0;
    while i < |shapes|
      invariant 0 <= i <= |shapes|
      invariant ColourShapes(shapes[..i], d) == Success(Drawing(patches, countIter))
    {
      var info := shapes[i];
      ColourStep(shapes, d, i, Drawing(patches, countIter));
      if IsDrawn(info) {
        var pick := ScanKeys(d, Province(info));
        if pick.Failure? {
          ColourFailure(shapes, d, i);
          return Failure(pick.error);
        }
        countIter := countIter + pick.value.examined;
        patches := patches + [Patch(i, pick.value.colour)];
      }
      i := i + 1;
    }
    assert shapes[..i] == shapes;
    r := Success(Drawing(patches, countIter));
  }
}

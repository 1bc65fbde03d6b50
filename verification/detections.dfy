/**
 * Assembly of the two box lists that the rider counter consumes, from the
 * output of the two detectors, and the prediction step that chains the
 * assembly into the counter.
 *
 * A detector returns a list of result objects, each holding a list of
 * detected objects. Here each result object is the sequence of its
 * detections, every detection already carrying its class name and a box
 * with integer coordinates.
 */
module Detections {
  import opened Geometry
  import opened RiderCount

  datatype Detection = Detection(name: string, box: Box)

  /** The only class name of the vehicle detector that is kept. */
  const BikeLabel: string := "motorcycle"

  /** All detections of all result objects, result by result, in order. */
  function Flatten(results: seq<seq<Detection>>): (ds: seq<Detection>)
  {
    if results == [] then []
    else Flatten(results[..|results| - 1]) + results[|results| - 1]
  }

  /** The boxes of the detections labelled as motorcycles, in order. */
  function MotorcycleBoxes(ds: seq<Detection>): (boxes: seq<Box>)
  {
    if ds == [] then []
    else
      var last := ds[|ds| - 1];
      MotorcycleBoxes(ds[..|ds| - 1]) + if last.name == BikeLabel then [last.box] else []
  }

  /** The boxes of all detections, whatever their label, in order. */
  function AllBoxes(ds: seq<Detection>): (boxes: seq<Box>)
    ensures |boxes| == |ds|
    ensures forall k :: 0 <= k < |ds| ==> boxes[k] == ds[k].box
  {
    seq(|ds|, k requires 0 <= k < |ds| => ds[k].box)
  }

  /** Filtering keeps order: the filter of a concatenation is the concatenation of the filters. */
  lemma {:induction false} MotorcycleBoxesAppend(a: seq<Detection>, b: seq<Detection>)
    ensures MotorcycleBoxes(a + b) == MotorcycleBoxes(a) + MotorcycleBoxes(b)
    decreases |b|
  {
    if b != [] {
      var b' := b[..|b| - 1];
      MotorcycleBoxesAppend(a, b');
      assert (a + b)[..|a + b| - 1] == a + b';
      var last := b[|b| - 1];
      assert (a + b)[|a + b| - 1] == last;
      var tail := if last.name == BikeLabel then [last.box] else [];
      assert MotorcycleBoxes(a + b) == MotorcycleBoxes(a + b') + tail;
      assert MotorcycleBoxes(b) == MotorcycleBoxes(b') + tail;
    } else {
      assert a + b == a;
    }
  }

  /** A box is kept exactly when some motorcycle detection carries it. */
  lemma {:induction false} MotorcycleBoxesMembers(ds: seq<Detection>, box: Box)
    ensures box in MotorcycleBoxes(ds) <==> exists k :: 0 <= k < |ds| && ds[k].name == BikeLabel && ds[k].box == box
  {
    if ds != [] {
      var init := ds[..|ds| - 1];
      MotorcycleBoxesMembers(init, box);
      if exists k :: 0 <= k < |init| && init[k].name == BikeLabel && init[k].box == box {
        var k :| 0 <= k < |init| && init[k].name == BikeLabel && init[k].box == box;
        assert ds[k] == init[k];
      }
      if exists k :: 0 <= k < |ds| && ds[k].name == BikeLabel && ds[k].box == box {
        var k :| 0 <= k < |ds| && ds[k].name == BikeLabel && ds[k].box == box;
        if k < |init| {
          assert init[k] == ds[k];
        }
      }
    }
  }

  /** Detections of any other class contribute nothing. */
  lemma {:induction false} NoMotorcyclesNoBikes(ds: seq<Detection>)
    requires forall k :: 0 <= k < |ds| ==> ds[k].name != BikeLabel
    ensures MotorcycleBoxes(ds) == []
  {
    if ds != [] {
      NoMotorcyclesNoBikes(ds[..|ds| - 1]);
    }
  }

  /** When every detection is a motorcycle, every box is kept. */
  lemma {:induction false} AllMotorcyclesAllKept(ds: seq<Detection>)
    requires forall k :: 0 <= k < |ds| ==> ds[k].name == BikeLabel
    ensures MotorcycleBoxes(ds) == AllBoxes(ds)
  {
    if ds != [] {
      var init := ds[..|ds| - 1];
      AllMotorcyclesAllKept(init);
      assert AllBoxes(ds) == AllBoxes(init) + [ds[|ds| - 1].box];
    }
  }

  /**
   * The bike list is drawn from the detections' boxes: each box is kept at
   * most as often as detections carry it, so never more bikes than detections.
   */
  lemma {:induction false} MotorcycleBoxesWithinAll(ds: seq<Detection>)
    ensures multiset(MotorcycleBoxes(ds)) <= multiset(AllBoxes(ds))
    ensures |MotorcycleBoxes(ds)| <= |ds|
  {
    if ds != [] {
      var init := ds[..|ds| - 1];
      MotorcycleBoxesWithinAll(init);
      assert AllBoxes(ds) == AllBoxes(init) + [ds[|ds| - 1].box];
    }
  }

  lemma FlattenExtends(results: seq<seq<Detection>>, r: nat)
    requires r < |results|
    ensures Flatten(results[..r + 1]) == Flatten(results[..r]) + results[r]
  {
    assert results[..r + 1][..r] == results[..r];
  }

  lemma MotorcycleBoxesExtends(prefix: seq<Detection>, boxes: seq<Detection>, k: nat)
    requires k < |boxes|
    ensures MotorcycleBoxes(prefix + boxes[..k + 1])
            == MotorcycleBoxes(prefix + boxes[..k]) + if boxes[k].name == BikeLabel then [boxes[k].box] else []
  {
    var ds := prefix + boxes[..k + 1];
    assert ds[..|ds| - 1] == prefix + boxes[..k];
    assert ds[|ds| - 1] == boxes[k];
  }

  /** The vehicle loop: keeps the boxes of the motorcycle detections, in order. */
  method CollectBikes(results: seq<seq<Detection>>) returns (bikesList: seq<Box>)
    ensures bikesList == MotorcycleBoxes(Flatten(results))
  {
    bikesList := [];
    for r := 0 to |results|
      invariant bikesList == MotorcycleBoxes(Flatten(results[..r]))
    {
      var boxes := results[r];
      ghost var done := Flatten(results[..r]);
      assert done + boxes[..0] == done;
      for k := 0 to |boxes|
        invariant bikesList == MotorcycleBoxes(done + boxes[..k])
      {
        var d := boxes[k];
        MotorcycleBoxesExtends(done, boxes, k);
        if d.name != BikeLabel {
          continue;
        }
        bikesList := bikesList + [d.box];
      }
      assert boxes[..|boxes|] == boxes;
      FlattenExtends(results, r);
    }
    assert results[..|results|] == results;
  }

  /** The helmet loop: keeps every box, with no filter on the label. */
  method CollectHelmets(results: seq<seq<Detection>>) returns (helmetsList: seq<Box>)
    ensures helmetsList == AllBoxes(Flatten(results))
  {
    helmetsList := [];
    for r := 0 to |results|
      invariant helmetsList == AllBoxes(Flatten(results[..r]))
    {
      var boxes := results[r];
      ghost var done := Flatten(results[..r]);
      assert done + boxes[..0] == done;
      for k := 0 to |boxes|
        invariant helmetsList == AllBoxes(done + boxes[..k])
      {
        var d := boxes[k];
        assert done + boxes[..k + 1] == (done + boxes[..k]) + [d];
        helmetsList := helmetsList + [d.box];
      }
      assert boxes[..|boxes|] == boxes;
      FlattenExtends(results, r);
    }
    assert results[..|results|] == results;
  }

  /**
   * The prediction step: assembles both box lists and counts with the
   * default expanding factor.
   */
  method Predict(helmetResults: seq<seq<Detection>>, bikeResults: seq<seq<Detection>>)
    returns (countHelmet: nat, countNoHelmet: nat)
    ensures var bikes := MotorcycleBoxes(Flatten(bikeResults));
            var helmets := AllBoxes(Flatten(helmetResults));
            && countHelmet == GreedyPairing(bikes, helmets, DefaultExpandingFactor).withHelmet
            && countNoHelmet == GreedyPairing(bikes, helmets, DefaultExpandingFactor).withoutHelmet
    ensures countHelmet + countNoHelmet == |MotorcycleBoxes(Flatten(bikeResults))|
    ensures countHelmet <= |Flatten(helmetResults)|
  {
    var bikesList := CollectBikes(bikeResults);
    var helmetsList := CollectHelmets(helmetResults);
    countHelmet, countNoHelmet := Count(bikesList, helmetsList, DefaultExpandingFactor);
  }
}

/**
 * The per-frame classifier count_vehicles: it keeps a detection when its
 * confidence reaches CONFIDENCE_THRESHOLD and its lower-cased class name is
 * one of VEHICLE_CLASSES, and tallies the kept detections into a Counts
 * record. The detector's output is modelled as the list of results of one
 * frame, each result a list of boxes reduced to class id and confidence.
 */
module Classifier {
  import opened Wrappers
  import opened Settings
  import opened Taxonomy

  /** One box of a detector result: int(box.cls[0]) and float(box.conf[0]). */
  datatype Detection = Detection(classId: int, conf: real)

  /** str.lower() on one character, for the ASCII letters. */
  function LowerChar(c: char): char {
    if 'A' <= c <= 'Z' then (c as int + 32) as char else c
  }

  /** No character of s is an upper-case ASCII letter. */
  predicate NoUpper(s: string) {
    forall i :: 0 <= i < |s| ==> !('A' <= s[i] <= 'Z')
  }

  /** str.lower(): same length, and nothing upper-case is left. */
  function Lower(s: string): (r: string)
    ensures |r| == |s|
    ensures NoUpper(r)
  {
    seq(|s|, i requires 0 <= i < |s| => LowerChar(s[i]))
  }

  /** Lower-casing twice is lower-casing once. */
  lemma {:induction false} LowerIdempotent(s: string)
    ensures Lower(Lower(s)) == Lower(s)
  {
    var t := Lower(s);
    assert forall i :: 0 <= i < |t| ==> Lower(t)[i] == t[i];
  }

  /**
   * Which names lower-case to a given lower-case target t: those of its
   * length whose every character is t's or, for a letter of t, its
   * upper-case form.
   */
  lemma {:induction false} LowerMatches(s: string, t: string)
    requires NoUpper(t)
    ensures Lower(s) == t <==>
      |s| == |t| &&
      forall i :: 0 <= i < |s| ==> s[i] == t[i] || ('a' <= t[i] <= 'z' && s[i] as int == t[i] as int - 32)
  {
    if |s| == |t| && forall i :: 0 <= i < |s| ==> s[i] == t[i] || ('a' <= t[i] <= 'z' && s[i] as int == t[i] as int - 32) {
      forall i | 0 <= i < |s|
        ensures Lower(s)[i] == t[i]
      {
        assert Lower(s)[i] == LowerChar(s[i]);
      }
    }
    if Lower(s) == t {
      forall i | 0 <= i < |s|
        ensures s[i] == t[i] || ('a' <= t[i] <= 'z' && s[i] as int == t[i] as int - 32)
      {
        assert t[i] == LowerChar(s[i]);
      }
    }
  }

  /** Every label in VEHICLE_CLASSES is already lower-case. */
  lemma {:induction false} LabelsAreLower(c: Category)
    ensures NoUpper(Label(c))
  {
    match c
    case Bus =>
    case Car =>
    case Jeepney =>
    case Motorcycle =>
    case PickupTruck =>
    case Truck =>
    case Van =>
  }

  /**
   * The class names that the filter counts under category c are exactly
   * the spellings of c's label with any of its letters in upper case.
   */
  lemma {:induction false} NameCountsAs(name: string, c: Category)
    ensures CategoryOf(Lower(name)) == Some(c) <==>
      |name| == |Label(c)| &&
      forall i :: 0 <= i < |name| ==>
        name[i] == Label(c)[i] || ('a' <= Label(c)[i] <= 'z' && name[i] as int == Label(c)[i] as int - 32)
  {
    LabelsAreLower(c);
    LowerMatches(name, Label(c));
    LabelRoundTrip(c);
  }

  /** Every class id the detector reports has a name (class_names[cls_id] does not raise). */
  predicate KnownIds(ds: seq<Detection>, classNames: map<int, string>) {
    forall i :: 0 <= i < |ds| ==> ds[i].classId in classNames
  }

  /** class_names[cls_id].lower() */
  function NameOf(d: Detection, classNames: map<int, string>): string
    requires d.classId in classNames
  {
    Lower(classNames[d.classId])
  }

  /** The filter of count_vehicles: conf >= CONFIDENCE_THRESHOLD and cls_name in VEHICLE_CLASSES. */
  predicate Accepted(d: Detection, classNames: map<int, string>)
    requires d.classId in classNames
  {
    d.conf >= ConfidenceThreshold && NameOf(d, classNames) in VehicleClasses
  }

  /**
   * What the loop body decides for one box: rejected, or counted in the
   * total and, when the name is a key of `counts`, in that key's counter.
   */
  datatype Verdict = Rejected | Counted(key: Option<Category>)

  /** The two tests of the inner loop body for one box. */
  function Classify(d: Detection, classNames: map<int, string>): Verdict
    requires d.classId in classNames
  {
    if Accepted(d, classNames) then Counted(CategoryOf(NameOf(d, classNames))) else Rejected
  }

  /** A box is counted exactly when the filter accepts it, and then under the counter its name is the key of. */
  lemma {:induction false} ClassifyCounted(d: Detection, classNames: map<int, string>)
    requires d.classId in classNames
    ensures var v := Classify(d, classNames);
      (v.Counted? <==> Accepted(d, classNames)) &&
      (v.Counted? ==> v.key.Some? && Label(v.key.value) == NameOf(d, classNames))
  {
  }

  /** The filter's two conditions, with the inclusive confidence boundary. */
  lemma {:induction false} AcceptedIff(d: Detection, classNames: map<int, string>)
    requires d.classId in classNames
    ensures Classify(d, classNames).Counted? <==>
      d.conf >= 0.4 && CategoryOf(Lower(classNames[d.classId])).Some?
  {
  }

  /** The counter updates of the inner loop body: counts['total'] += 1 and, if the key exists, counts[key] += 1. */
  function Apply(counts: Counts, v: Verdict): Counts {
    match v
    case Rejected => counts
    case Counted(None) => counts.IncTotal()
    case Counted(Some(c)) => counts.IncTotal().Bump(c)
  }

  /** The verdict of a box a filter accepts always names a counter. */
  predicate WellKeyed(vs: seq<Verdict>) {
    forall i :: 0 <= i < |vs| ==> vs[i].Counted? ==> vs[i].key.Some?
  }

  /** An accepted box raises the total and exactly one category by one; a rejected one changes nothing. */
  lemma {:induction false} ApplyEffect(counts: Counts, d: Detection, classNames: map<int, string>)
    requires d.classId in classNames
    ensures var r := Apply(counts, Classify(d, classNames));
      if Accepted(d, classNames) then
        var c := CategoryOf(NameOf(d, classNames)).value;
        r.total == counts.total + 1 && r.Get(c) == counts.Get(c) + 1 &&
        forall e :: e != c ==> r.Get(e) == counts.Get(e)
      else r == counts
  {
  }

  /** The counts after the loop body has run on the verdicts vs, in order, starting from all zeros. */
  function Tally(vs: seq<Verdict>): Counts {
    if vs == [] then Zero else Apply(Tally(vs[..|vs| - 1]), vs[|vs| - 1])
  }

  /** The tally invariant: the total equals the sum of the seven category counters. */
  lemma {:induction false} TallyConsistent(vs: seq<Verdict>)
    requires WellKeyed(vs)
    ensures Tally(vs).Consistent()
  {
    if vs != [] {
      var prefix := vs[..|vs| - 1];
      assert WellKeyed(prefix);
      TallyConsistent(prefix);
    }
  }

  /** With no accepted box, every counter stays 0. */
  lemma {:induction false} TallyNoneCounted(vs: seq<Verdict>)
    requires forall i :: 0 <= i < |vs| ==> vs[i] == Rejected
    ensures Tally(vs) == Zero
  {
    if vs != [] {
      TallyNoneCounted(vs[..|vs| - 1]);
    }
  }

  /** Counting one more box applies the loop body once more. */
  lemma {:induction false} TallySnoc(vs: seq<Verdict>, v: Verdict)
    ensures Tally(vs + [v]) == Apply(Tally(vs), v)
  {
    assert (vs + [v])[..|vs|] == vs;
  }

  /** The loop body commutes with adding counters accumulated before it. */
  lemma {:induction false} ApplyPlus(k: Counts, m: Counts, v: Verdict)
    ensures Apply(k.Plus(m), v) == k.Plus(Apply(m, v))
  {
    match v
    case Rejected =>
    case Counted(None) =>
    case Counted(Some(c)) =>
      match c
      case Bus =>
      case Car =>
      case Jeepney =>
      case Motorcycle =>
      case PickupTruck =>
      case Truck =>
      case Van =>
  }

  /** Counting two lists one after the other is the counter-wise sum of their tallies. */
  lemma {:induction false} TallyAppend(a: seq<Verdict>, b: seq<Verdict>)
    ensures Tally(a + b) == Tally(a).Plus(Tally(b))
  {
    if b == [] {
      assert a + b == a;
      assert Tally(a).Plus(Zero) == Tally(a);
    } else {
      var b', x := b[..|b| - 1], b[|b| - 1];
      assert b == b' + [x];
      assert a + b == (a + b') + [x];
      calc {
        Tally(a + b);
        { TallySnoc(a + b', x); }
        Apply(Tally(a + b'), x);
        { TallyAppend(a, b'); }
        Apply(Tally(a).Plus(Tally(b')), x);
        { ApplyPlus(Tally(a), Tally(b'), x); }
        Tally(a).Plus(Apply(Tally(b'), x));
        { TallySnoc(b', x); }
        Tally(a).Plus(Tally(b));
      }
    }
  }

  /** The verdicts of a list of boxes, box by box. */
  function Verdicts(ds: seq<Detection>, classNames: map<int, string>): (vs: seq<Verdict>)
    requires KnownIds(ds, classNames)
    ensures |vs| == |ds|
  {
    seq(|ds|, i requires 0 <= i < |ds| && KnownIds(ds, classNames) => Classify(ds[i], classNames))
  }

  /** Every counted verdict names a counter: the `if cls_name in counts` test never fails. */
  lemma {:induction false} VerdictsWellKeyed(ds: seq<Detection>, classNames: map<int, string>)
    requires KnownIds(ds, classNames)
    ensures WellKeyed(Verdicts(ds, classNames))
  {
    var vs := Verdicts(ds, classNames);
    forall i | 0 <= i < |vs|
      ensures vs[i].Counted? ==> vs[i].key.Some?
    {
      ClassifyCounted(ds[i], classNames);
    }
  }

  /** The boxes of all results of one frame, result after result. */
  function Flatten(results: seq<seq<Detection>>): seq<Detection> {
    if results == [] then []
    else Flatten(results[..|results| - 1]) + results[|results| - 1]
  }

  /** Every class id in every result has a name. */
  predicate AllKnown(results: seq<seq<Detection>>, classNames: map<int, string>) {
    forall i :: 0 <= i < |results| ==> KnownIds(results[i], classNames)
  }

  lemma {:induction false} FlattenKnown(results: seq<seq<Detection>>, classNames: map<int, string>)
    requires AllKnown(results, classNames)
    ensures KnownIds(Flatten(results), classNames)
  {
    if results != [] {
      var prefix := results[..|results| - 1];
      assert AllKnown(prefix, classNames);
      FlattenKnown(prefix, classNames);
    }
  }

  /** The per-frame tally of a frame's detector results: what count_vehicles returns. */
  function FrameTally(results: seq<seq<Detection>>, classNames: map<int, string>): Counts
    requires AllKnown(results, classNames)
  {
    FlattenKnown(results, classNames);
    Tally(Verdicts(Flatten(results), classNames))
  }

  /** The tally invariant for a frame: its total is the sum of its seven category counts. */
  lemma {:induction false} FrameTallyConsistent(results: seq<seq<Detection>>, classNames: map<int, string>)
    requires AllKnown(results, classNames)
    ensures FrameTally(results, classNames).Consistent()
  {
    FlattenKnown(results, classNames);
    VerdictsWellKeyed(Flatten(results), classNames);
    TallyConsistent(Verdicts(Flatten(results), classNames));
  }

  /** Every box of the flattened results is a box of one of the results. */
  lemma {:induction false} FlattenFrom(results: seq<seq<Detection>>, k: nat)
    requires k < |Flatten(results)|
    ensures exists i, j :: 0 <= i < |results| && 0 <= j < |results[i]| && Flatten(results)[k] == results[i][j]
  {
    var n := |results| - 1;
    var prefix := results[..n];
    var head := Flatten(prefix);
    if k < |head| {
      FlattenFrom(prefix, k);
      var i, j :| 0 <= i < |prefix| && 0 <= j < |prefix[i]| && head[k] == prefix[i][j];
      assert prefix[i] == results[i];
    } else {
      assert Flatten(results)[k] == results[n][k - |head|];
    }
  }

  /** A frame in which no box passes the filter, in particular one with no boxes, leaves every counter at 0. */
  lemma {:induction false} NothingAcceptedIsZero(results: seq<seq<Detection>>, classNames: map<int, string>)
    requires AllKnown(results, classNames)
    requires forall i, j :: 0 <= i < |results| && 0 <= j < |results[i]| ==> !Accepted(results[i][j], classNames)
    ensures FrameTally(results, classNames) == Zero
  {
    FlattenKnown(results, classNames);
    var ds := Flatten(results);
    var vs := Verdicts(ds, classNames);
    forall k | 0 <= k < |vs|
      ensures vs[k] == Rejected
    {
      FlattenFrom(results, k);
      var i, j :| 0 <= i < |results| && 0 <= j < |results[i]| && ds[k] == results[i][j];
    }
    TallyNoneCounted(vs);
  }

  /** Classifying one more box applies the loop body once more. */
  lemma {:induction false} TallyVerdictsSnoc(seen: seq<Detection>, box: Detection, classNames: map<int, string>)
    requires KnownIds(seen, classNames) && box.classId in classNames
    ensures KnownIds(seen + [box], classNames)
    ensures Tally(Verdicts(seen + [box], classNames)) ==
      Apply(Tally(Verdicts(seen, classNames)), Classify(box, classNames))
  {
    assert Verdicts(seen + [box], classNames) == Verdicts(seen, classNames) + [Classify(box, classNames)];
    TallySnoc(Verdicts(seen, classNames), Classify(box, classNames));
  }

  /**
   * count_vehicles(results, class_names): two nested loops over the results
   * and their boxes, updating the counters in place.
   */
  method CountVehicles(results: seq<seq<Detection>>, classNames: map<int, string>) returns (counts: Counts)
    requires AllKnown(results, classNames)
    ensures counts == FrameTally(results, classNames)
    ensures counts.Consistent()
  {
    counts := Zero;
    ghost var seen: seq<Detection> := [];
    var i := 0;
    while i < |results|
      invariant 0 <= i <= |results|
      invariant seen == Flatten(results[..i])
      invariant KnownIds(seen, classNames)
      invariant counts == Tally(Verdicts(seen, classNames))
    {
      var boxes := results[i];
      ghost var done := seen;
      var j := 0;
      while j < |boxes|
        invariant 0 <= j <= |boxes|
        invariant seen == done + boxes[..j]
        invariant KnownIds(seen, classNames)
        invariant counts == Tally(Verdicts(seen, classNames))
      {
        var box := boxes[j];
        TallyVerdictsSnoc(seen, box, classNames);
        counts := Apply(counts, Classify(box, classNames));
        seen := seen + [box];
        j := j + 1;
      }
      assert results[..i + 1][..i] == results[..i];
      assert boxes[..j] == boxes;
      i := i + 1;
    }
    assert results[..i] == results;
    FrameTallyConsistent(results, classNames);
  }
}

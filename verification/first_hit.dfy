/**
 * The "first attempt that succeeds" search shared by the two poll loops and by
 * the barcode analyzer: given one boolean per attempt, the index of the first
 * true one at or after `from`.
 */
module FirstHit {
  import opened Entities

  function FirstTrue(hits: seq<bool>, from: nat): (r: Option<nat>)
    decreases |hits| - from
  {
    if from >= |hits| then None
    else if hits[from] then Some(from)
    else FirstTrue(hits, from + 1)
  }

  /** `FirstTrue` finds a hit, and it is the earliest one at or after `from`. */
  lemma {:induction false} FirstTrueIsLeast(hits: seq<bool>, from: nat)
    ensures FirstTrue(hits, from).Some? ==>
      var i := FirstTrue(hits, from).value;
      from <= i < |hits| && hits[i] && forall j :: from <= j < i ==> !hits[j]
    ensures FirstTrue(hits, from).None? ==> forall j :: from <= j < |hits| ==> !hits[j]
    decreases |hits| - from
  {
    if from < |hits| && !hits[from] {
      FirstTrueIsLeast(hits, from + 1);
    }
  }

  /** Conversely, the earliest hit at or after `from` is what `FirstTrue` returns. */
  lemma {:induction false} FirstTrueOfLeast(hits: seq<bool>, from: nat, i: nat)
    requires from <= i < |hits| && hits[i]
    requires forall j :: from <= j < i ==> !hits[j]
    ensures FirstTrue(hits, from) == Some(i)
  {
    FirstTrueIsLeast(hits, from);
  }
}

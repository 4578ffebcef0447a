/** The polling-interval policy of models/interval_calculator.py. One read
    transaction moves 17 bytes (an 8-byte request and a 9-byte reply) of 10
    bit times each; the minimum safe interval is that transmission time with a
    50% margin, 255/baud seconds. The arithmetic is exact over the reals. */
module IntervalPolicy {
  import opened BaudRates

  const TransactionBytes: int := 17
  const BitsPerByte: int := 10
  const SafetyMargin: real := 1.5

  /** `calculate_min_interval`: seconds one transaction needs at `baud`,
      margin included. Python raises on a zero rate. */
  function MinInterval(baud: int): (r: real)
    requires baud != 0
    ensures r * baud as real == 255.0
    ensures baud > 0 ==> r > 0.0
  {
    (TransactionBytes * BitsPerByte) as real / baud as real * SafetyMargin
  }

  /** A faster line never needs a longer interval. */
  lemma MinIntervalDecreasing(a: int, b: int)
    requires 0 < a < b
    ensures MinInterval(a) > MinInterval(b)
  {
    var ia, ib := MinInterval(a), MinInterval(b);
    var ra, rb := a as real, b as real;
    assert ia * ra == ib * rb;
    assert ib * rb > ib * ra by {
      assert ib > 0.0 && rb - ra > 0.0;
      assert ib * (rb - ra) > 0.0;
    }
    if ia <= ib {
      assert ia * ra <= ib * ra;
    }
  }

  /** Across the candidates the minimum interval strictly decreases. */
  lemma CandidateIntervalsDecreasing()
    ensures forall i, j :: 0 <= i < j < |Candidates| ==> MinInterval(Candidates[i]) > MinInterval(Candidates[j])
  {
    forall i, j | 0 <= i < j < |Candidates|
      ensures MinInterval(Candidates[i]) > MinInterval(Candidates[j])
    {
      MinIntervalDecreasing(Candidates[i], Candidates[j]);
    }
  }

  lemma MinIntervalExamples()
    ensures MinInterval(9600) == 0.0265625
    ensures MinInterval(115200) == 255.0 / 115200.0
  {
  }

  /** `is_interval_valid`: whether `interval` is at least the minimum. */
  function IsIntervalValid(interval: real, baud: int): (ok: bool)
    requires baud != 0
    ensures baud > 0 ==> (ok <==> interval * baud as real >= 255.0)
  {
    interval >= MinInterval(baud)
  }

  lemma IntervalValidityExamples()
    ensures IsIntervalValid(0.2, 9600)
    ensures !IsIntervalValid(0.01, 9600)
  {
  }

  /** Some candidate can sustain `target`. */
  predicate Attainable(target: real) {
    exists i :: 0 <= i < |Candidates| && MinInterval(Candidates[i]) <= target
  }

  /** The suggestion scan from the `i`-th candidate on: the index of the
      first candidate that fits, or of the last one when none does. */
  function SuggestFrom(target: real, i: nat): (k: nat)
    requires i <= |Candidates|
    ensures i <= k < |Candidates| || (i == |Candidates| && k == |Candidates| - 1)
    ensures forall j :: i <= j < k ==> MinInterval(Candidates[j]) > target
    ensures MinInterval(Candidates[k]) <= target
            || (k == |Candidates| - 1 && forall j :: i <= j < |Candidates| ==> MinInterval(Candidates[j]) > target)
    decreases |Candidates| - i
  {
    if i == |Candidates| then |Candidates| - 1
    else if MinInterval(Candidates[i]) <= target then i
    else SuggestFrom(target, i + 1)
  }

  /** `suggest_baudrate`: the slowest candidate whose minimum interval fits
      `target`, or the fastest candidate, 115200, when none does. */
  function SuggestBaudrate(target: real): (r: int)
    ensures r in Candidates
    ensures Attainable(target) ==>
              MinInterval(r) <= target
              && forall k :: 0 <= k < |Candidates| && Candidates[k] < r ==> MinInterval(Candidates[k]) > target
    ensures !Attainable(target) ==> r == 115200
  {
    CandidatesAscending();
    Candidates[SuggestFrom(target, 0)]
  }

  /** A suggestion that was attainable is valid for the target interval, and
      so is every faster candidate. */
  lemma SuggestionIsValid(target: real)
    requires Attainable(target)
    ensures IsIntervalValid(target, SuggestBaudrate(target))
    ensures forall k :: 0 <= k < |Candidates| && Candidates[k] >= SuggestBaudrate(target) ==>
              IsIntervalValid(target, Candidates[k])
  {
    var r := SuggestBaudrate(target);
    forall k | 0 <= k < |Candidates| && Candidates[k] >= r
      ensures IsIntervalValid(target, Candidates[k])
    {
      if Candidates[k] > r {
        MinIntervalDecreasing(r, Candidates[k]);
      }
    }
  }

  /** A 10 ms target is met first at 38400: 9600 needs 26.6 ms and 19200
      needs 13.3 ms. */
  lemma SuggestTenMilliseconds()
    ensures SuggestBaudrate(0.01) == 38400
  {
    assert MinInterval(9600) > 0.01;
    assert MinInterval(19200) > 0.01;
    assert MinInterval(38400) <= 0.01;
  }
}

/** Fitting a recompressed stream into a fixed slot. The LZMA codec itself is a
    library: any partial encoder and decoder. */
module Compress {
  import opened Results
  import opened Words
  import opened Ffs

  datatype CompressError = EmptyInput | CompressFailed | RoundTripFailed

  datatype Params = Params(lc: nat, lp: nat, pb: nat)

  const DICT_SIZE := 0x0100_0000

  /** Raw encoder, and decoder of whole streams. */
  datatype Codec = Codec(encode: (Params, Bytes) -> Option<Bytes>, decode: Bytes -> Option<Bytes>)

  function PropsByte(lc: nat, lp: nat, pb: nat): U8 {
    ((pb * 5 + lp) * 9 + lc) % 0x100
  }

  /** The stream with its 13-byte header: properties, dictionary, input length. */
  function AloneStream(c: Codec, input: Bytes, p: Params): Option<Bytes> {
    var raw :- c.encode(p, input);
    Some([PropsByte(p.lc, p.lp, p.pb)] + Le(DICT_SIZE, 4) + Le(|input|, 8) + raw)
  }

  predicate RoundTrips(c: Codec, input: Bytes, stream: Bytes) {
    c.decode(stream) == Some(input)
  }

  const GRID := 15

  /** Candidate `k` of the sweep: position bits 0 to 2, and for each of them
      literal context bits 0 to 4. */
  function Candidate(c: Codec, input: Bytes, k: nat): Option<Bytes> {
    AloneStream(c, input, Params(k % 5, 0, k / 5))
  }

  predicate Fits(c: Codec, input: Bytes, budget: nat, k: nat) {
    Candidate(c, input, k).Some? && |Candidate(c, input, k).value| <= budget
  }

  function Padded(stream: Bytes, n: nat): (r: Bytes)
    requires |stream| <= n
    ensures |r| == n
  {
    stream + seq(n - |stream|, _ => 0)
  }

  /** `best` is a shortest of the candidates before `k`, the first of its length. */
  ghost predicate Shortest(c: Codec, input: Bytes, k: nat, best: Bytes) {
    exists j :: 0 <= j < k && Candidate(c, input, j) == Some(best)
      && (forall i :: 0 <= i < k ==> Candidate(c, input, i).Some? && |best| <= |Candidate(c, input, i).value|)
      && (forall i :: 0 <= i < j ==> |best| < |Candidate(c, input, i).value|)
  }

  /** The sweep as a function, for the builder's specification. */
  function FitFrom(c: Codec, input: Bytes, budget: Option<nat>, k: nat, best: Option<Bytes>): Result<Bytes, CompressError>
    requires k <= GRID && (k > 0 ==> best.Some?)
    decreases GRID - k, 1
  {
    if k == GRID then CheckStream(c, input, best.value)
    else FitNext(c, input, budget, k, best, Candidate(c, input, k))
  }

  function FitNext(c: Codec, input: Bytes, budget: Option<nat>, k: nat, best: Option<Bytes>, candidate: Option<Bytes>): Result<Bytes, CompressError>
    requires k < GRID
    decreases GRID - k, 0
  {
    match candidate
    case None => Err(CompressFailed)
    case Some(stream) =>
      if budget.Some? && |stream| <= budget.value then CheckStream(c, input, Padded(stream, budget.value))
      else FitFrom(c, input, budget, k + 1, if best.None? || |stream| < |best.value| then Some(stream) else best)
  }

  function CheckStream(c: Codec, input: Bytes, stream: Bytes): Result<Bytes, CompressError> {
    if RoundTrips(c, input, stream) then Ok(stream) else Err(RoundTripFailed)
  }

  function Fit(c: Codec, input: Bytes, budget: Option<nat>): Result<Bytes, CompressError> {
    if input == [] then Err(EmptyInput) else FitFrom(c, input, budget, 0, None)
  }

  /** Candidates before `k` all encode and none of them fits. */
  ghost predicate Rejected(c: Codec, input: Bytes, budget: Option<nat>, k: nat) {
    forall j :: 0 <= j < k ==> Candidate(c, input, j).Some? && !(budget.Some? && Fits(c, input, budget.value, j))
  }

  lemma ShortestGrows(c: Codec, input: Bytes, k: nat, best: Option<Bytes>, stream: Bytes)
    requires Candidate(c, input, k) == Some(stream)
    requires if k == 0 then best.None? else best.Some? && Shortest(c, input, k, best.value)
    ensures var best' := if best.None? || |stream| < |best.value| then stream else best.value;
      Shortest(c, input, k + 1, best')
  {
    hide Candidate;
  }

  /** `stream` is candidate `k`, the first that fits, with zeros behind it. */
  ghost predicate FirstFit(c: Codec, input: Bytes, budget: nat, k: nat, stream: Bytes) {
    && k < GRID && Fits(c, input, budget, k) && (forall j :: 0 <= j < k ==> !Fits(c, input, budget, j))
    && var x := Candidate(c, input, k).value;
      |stream| == budget && x <= stream && forall i :: |x| <= i < budget ==> stream[i] == 0
  }

  /** What a successful sweep returns. */
  ghost predicate SlotResult(c: Codec, input: Bytes, budget: Option<nat>, stream: Bytes) {
    && RoundTrips(c, input, stream)
    && (if budget.Some? && exists k :: 0 <= k < GRID && Fits(c, input, budget.value, k)
        then exists k :: FirstFit(c, input, budget.value, k, stream)
        else Shortest(c, input, GRID, stream) && (budget.Some? ==> |stream| > budget.value))
  }

  lemma {:induction false} FitFromMeaning(c: Codec, input: Bytes, budget: Option<nat>, k: nat, best: Option<Bytes>)
    requires k <= GRID && Rejected(c, input, budget, k)
    requires if k == 0 then best.None? else best.Some? && Shortest(c, input, k, best.value)
    ensures FitFrom(c, input, budget, k, best).Ok? ==> SlotResult(c, input, budget, FitFrom(c, input, budget, k, best).value)
    decreases GRID - k
  {
    hide Candidate;
    if k < GRID && Candidate(c, input, k).Some? {
      var stream := Candidate(c, input, k).value;
      if budget.Some? && |stream| <= budget.value {
        assert Fits(c, input, budget.value, k);
        if RoundTrips(c, input, Padded(stream, budget.value)) {
          assert FirstFit(c, input, budget.value, k, Padded(stream, budget.value));
        }
      } else {
        ShortestGrows(c, input, k, best, stream);
        FitFromMeaning(c, input, budget, k + 1, if best.None? || |stream| < |best.value| then Some(stream) else best);
      }
    }
  }

  /** Over any codec: a successful result decodes to the input; as soon as some
      candidate fits the slot it is the first that does, filled up with zeros, and
      otherwise a shortest candidate, longer than the slot. */
  lemma FitMeaning(c: Codec, input: Bytes, budget: Option<nat>)
    ensures Fit(c, input, budget).Ok? ==> input != [] && SlotResult(c, input, budget, Fit(c, input, budget).value)
  {
    hide FitFrom, SlotResult;
    if input != [] {
      FitFromMeaning(c, input, budget, 0, None);
    }
  }

  /** The header of a stream tells the parameters, the dictionary size and the input
      length; the candidates are all combinations of up to 4 literal context bits and
      up to 2 position bits. */
  lemma StreamHeader(c: Codec, input: Bytes, k: nat)
    requires k < GRID && Candidate(c, input, k).Some?
    ensures var s, lc, pb := Candidate(c, input, k).value, k % 5, k / 5;
      && lc <= 4 && pb <= 2 && |s| >= 13
      && s[0] % 9 == lc && (s[0] / 9) % 5 == 0 && s[0] / 45 == pb
      && FromLe(s[1..5]) == 0x0100_0000 && FromLe(s[5..13]) == |input| % Pow2(64)
      && c.encode(Params(lc, 0, pb), input) == Some(s[13..])
  {
    hide Le, FromLe, Pow2, PropsByte;
    var raw := c.encode(Params(k % 5, 0, k / 5), input).value;
    var props := PropsByte(k % 5, 0, k / 5);
    StreamParts(props, Le(DICT_SIZE, 4), Le(|input|, 8), raw);
    PropsMeaning(k % 5, k / 5);
    LeIsMod(DICT_SIZE, 4);
    LeIsMod(|input|, 8);
    Pow2Of32();
  }

  lemma PropsMeaning(lc: nat, pb: nat)
    requires lc <= 4 && pb <= 2
    ensures var x := PropsByte(lc, 0, pb); x % 9 == lc && (x / 9) % 5 == 0 && x / 45 == pb
  {
    var x := PropsByte(lc, 0, pb);
    assert x == 45 * pb + lc;
    DivUnique(x, 45, pb, lc);
    DivUnique(x, 9, 5 * pb, lc);
    DivUnique(5 * pb, 5, pb, 0);
  }

  lemma StreamParts(props: U8, dict: Bytes, size: Bytes, raw: Bytes)
    requires |dict| == 4 && |size| == 8
    ensures var s := [props] + dict + size + raw;
      |s| >= 13 && s[0] == props && s[1..5] == dict && s[5..13] == size && s[13..] == raw
  {
  }

  lemma EveryCombination(lc: nat, pb: nat) returns (k: nat)
    requires lc <= 4 && pb <= 2
    ensures k < GRID && k % 5 == lc && k / 5 == pb
  {
    k := 5 * pb + lc;
  }

  lemma FitStep(c: Codec, input: Bytes, budget: Option<nat>, k: nat, best: Option<Bytes>)
    requires k <= GRID && (k > 0 ==> best.Some?)
    ensures k == GRID ==> FitFrom(c, input, budget, k, best) == CheckStream(c, input, best.value)
    ensures k < GRID ==> FitFrom(c, input, budget, k, best) == FitNext(c, input, budget, k, best, Candidate(c, input, k))
  {
    hide Candidate, CheckStream, Padded;
  }

  lemma CandidateAt(c: Codec, input: Bytes, pb: nat, lc: nat)
    requires lc < 5
    ensures Candidate(c, input, 5 * pb + lc) == AloneStream(c, input, Params(lc, 0, pb))
  {
    hide AloneStream;
    assert (5 * pb + lc) / 5 == pb && (5 * pb + lc) % 5 == lc;
  }

  /** The sweep over the grid. */
  method CompressLzmaFit(c: Codec, input: Bytes, budget: Option<nat>) returns (r: Result<Bytes, CompressError>)
    ensures r == Fit(c, input, budget)
    ensures r.Ok? ==> SlotResult(c, input, budget, r.value)
  {
    hide SlotResult, Candidate, AloneStream, CheckStream, FitFrom;
    FitMeaning(c, input, budget);
    if input == [] {
      return Err(EmptyInput);
    }
    var best: Option<Bytes> := None;
    for pb := 0 to 3
      invariant best.Some? <==> pb > 0
      invariant Fit(c, input, budget) == FitFrom(c, input, budget, 5 * pb, best)
    {
      for lc := 0 to 5
        invariant best.Some? <==> 5 * pb + lc > 0
        invariant Fit(c, input, budget) == FitFrom(c, input, budget, 5 * pb + lc, best)
      {
        CandidateAt(c, input, pb, lc);
        FitStep(c, input, budget, 5 * pb + lc, best);
        var candidate := AloneStream(c, input, Params(lc, 0, pb));
        if candidate.None? {
          return Err(CompressFailed);
        }
        var stream := candidate.value;
        if budget.Some? && |stream| <= budget.value {
          return CheckStream(c, input, Padded(stream, budget.value));
        }
        if best.None? || |stream| < |best.value| {
          best := Some(stream);
        }
      }
    }
    FitStep(c, input, budget, GRID, best);
    return CheckStream(c, input, best.value);
  }
}

/** The sample-stream correction loop: one pass over the input bytes that
    rotates every complete (I, Q) pair by the Doppler offset in force at its
    index, refreshing that offset from the oracle on refresh boundaries. */
module Corrector {
  import opened Wrappers
  import opened Codec
  import opened Schedule
  import opened Arith

  /** The phase rotation of one sample by `shift` Hz at signal time `t`
      seconds, as computed in double precision and stored back as two
      single-precision floats. Supplied by the caller: the model does not
      fix its floating-point arithmetic. */
  type Rotation = (Sample, real, real) -> Sample

  /** The corrected samples, by closed form: sample `k` (0-based, index
      `k + 1`) is rotated by the offset in force at its index and by its
      untruncated phase time. */
  function Corrected(samples: seq<Sample>, obs: Observation, rotate: Rotation): (out: seq<Sample>)
    requires obs.rate > 0
  {
    seq(|samples|, k requires 0 <= k < |samples| =>
      rotate(samples[k], ShiftAt(obs, k + 1), PhaseTime(obs, k + 1)))
  }

  /** One more input sample adds exactly one corrected sample at the end and
      leaves the earlier ones unchanged. */
  lemma CorrectedAppend(samples: seq<Sample>, s: Sample, obs: Observation, rotate: Rotation)
    requires obs.rate > 0
    ensures Corrected(samples + [s], obs, rotate)
         == Corrected(samples, obs, rotate)
            + [rotate(s, ShiftAt(obs, |samples| + 1), PhaseTime(obs, |samples| + 1))]
  {
  }

  /** The bytes written for input stream `input`: every complete pair
      decoded, corrected and re-encoded, in order. */
  function CorrectedStream(input: seq<Byte>, obs: Observation, rotate: Rotation): seq<Byte>
    requires obs.rate > 0
  {
    EncodeSamples(Corrected(DecodeSamples(input), obs, rotate))
  }

  /** Two successful float reads at the pair boundary of index `idx` add the
      encoding of that sample, corrected, to the output owed for the input
      consumed so far. */
  lemma OutputStep(input: seq<Byte>, idx: nat, sample: Sample, obs: Observation, rotate: Rotation)
    requires obs.rate > 0 && idx >= 1 && 8 * idx <= |input|
    requires EncodeF32(sample.i) == input[8 * (idx - 1)..8 * (idx - 1) + 4]
    requires EncodeF32(sample.q) == input[8 * (idx - 1) + 4..8 * idx]
    ensures CorrectedStream(input[..8 * idx], obs, rotate)
         == CorrectedStream(input[..8 * (idx - 1)], obs, rotate)
            + EncodePair(rotate(sample, ShiftAt(obs, idx), PhaseTime(obs, idx)))
  {
    var pos := 8 * (idx - 1);
    DivModUnique(pos, 8, idx - 1, 0);
    DecodeNextPair(input, pos, sample);
    var before := DecodeSamples(input[..pos]);
    CorrectedAppend(before, sample, obs, rotate);
    EncodeSamplesAppend(Corrected(before, obs, rotate), rotate(sample, ShiftAt(obs, idx), PhaseTime(obs, idx)));
  }

  /** The per-sample step at index `idx`, given the offset held after the
      samples before it: refresh the offset when `idx` is a refresh index,
      then rotate the sample. Returns the corrected sample, the offset now
      held and the oracle call made, if any. */
  method CorrectSample(sample: Sample, idx: nat, shift: Option<real>, obs: Observation, rotate: Rotation)
    returns (out: Sample, held: Option<real>, query: Option<Query>)
    requires obs.rate > 0 && idx >= 1
    requires shift == if idx == 1 then None else Some(ShiftAt(obs, idx - 1))
    ensures out == rotate(sample, ShiftAt(obs, idx), PhaseTime(obs, idx))
    ensures held == Some(ShiftAt(obs, idx))
    ensures query == if IsRefresh(idx, obs.rate) then Some(Query(idx, OracleTime(obs, idx))) else None
  {
    held := shift;
    query := None;
    if held.None? || idx % obs.rate == 0 {
      var time := OracleTime(obs, idx);
      query := Some(Query(idx, time));
      held := Some(-obs.doppler(time));
      ShiftAtRefresh(obs, idx);
    } else {
      ShiftHeld(obs, idx);
    }
    var t := PhaseTime(obs, idx);
    out := rotate(sample, held.value, t);
  }

  /** The loop state after the samples before index `idx` are done: `pos`
      bytes consumed, their corrected pairs written, the oracle calls of
      indices 1 to `idx - 1` made, and the offset in force at `idx - 1` held
      (none before the first sample). */
  ghost predicate Progress(input: seq<Byte>, pos: nat, idx: nat, output: seq<Byte>, queries: seq<Query>,
                           shift: Option<real>, obs: Observation, rotate: Rotation)
    requires obs.rate > 0
  {
    && 1 <= idx && pos == 8 * (idx - 1) <= |input|
    && output == CorrectedStream(input[..pos], obs, rotate)
    && queries == Queries(obs, idx - 1)
    && shift == (if idx == 1 then None else Some(ShiftAt(obs, idx - 1)))
  }

  /** One pass of the loop body at index `idx`: read the in-phase and the
      quadrature float, stopping when either read finds the stream ended;
      otherwise refresh the offset if due, rotate the sample and write it. */
  method Step(input: seq<Byte>, pos: nat, idx: nat, output: seq<Byte>, queries: seq<Query>,
              shift: Option<real>, obs: Observation, rotate: Rotation)
    returns (more: bool, output': seq<Byte>, queries': seq<Query>, shift': Option<real>)
    requires obs.rate > 0 && Progress(input, pos, idx, output, queries, shift, obs, rotate)
    ensures more ==> pos + 8 <= |input| && Progress(input, pos + 8, idx + 1, output', queries', shift', obs, rotate)
    ensures !more ==> |input| < pos + 8 && output' == output && queries' == queries && shift' == shift
  {
    var i := ReadF32(input, pos);
    var q := ReadF32(input, pos + 4);
    if i.None? || q.None? {
      return false, output, queries, shift;
    }
    output', queries', shift' := Emit(input, pos, idx, Sample(i.value, q.value), output, queries, shift, obs, rotate);
    more := true;
  }

  /** The rest of the loop body once the pair at index `idx` has been read:
      refresh the offset if due, rotate the sample and write it. */
  method Emit(input: seq<Byte>, pos: nat, idx: nat, sample: Sample, output: seq<Byte>, queries: seq<Query>,
              shift: Option<real>, obs: Observation, rotate: Rotation)
    returns (output': seq<Byte>, queries': seq<Query>, shift': Option<real>)
    requires obs.rate > 0 && Progress(input, pos, idx, output, queries, shift, obs, rotate)
    requires pos + 8 <= |input|
    requires EncodeF32(sample.i) == input[pos..pos + 4]
    requires EncodeF32(sample.q) == input[pos + 4..pos + 8]
    ensures Progress(input, pos + 8, idx + 1, output', queries', shift', obs, rotate)
  {
    var out, query;
    out, shift', query := CorrectSample(sample, idx, shift, obs, rotate);
    queries' := queries;
    if query.Some? {
      queries' := queries + [query.value];
    }
    OutputStep(input, idx, sample, obs, rotate);
    output' := output + EncodePair(out);
  }

  /** The correction loop. Consumes `input` pair by pair until fewer than
      eight bytes remain; returns the bytes written, the oracle calls made and
      the final sample index. */
  method Correct(input: seq<Byte>, obs: Observation, rotate: Rotation)
    returns (output: seq<Byte>, queries: seq<Query>, idx: nat)
    requires obs.rate > 0
    ensures idx == |input| / 8 + 1
    ensures |output| == 8 * (idx - 1)
    ensures DecodeSamples(output) == Corrected(DecodeSamples(input), obs, rotate)
    ensures output == EncodeSamples(Corrected(DecodeSamples(input), obs, rotate))
    ensures queries == Queries(obs, idx - 1)
  {
    var pos := 0;
    idx := 1;
    var shift: Option<real> := None;
    output := [];
    queries := [];
    while true
      invariant Progress(input, pos, idx, output, queries, shift, obs, rotate)
      decreases |input| - pos
    {
      var more;
      more, output, queries, shift := Step(input, pos, idx, output, queries, shift, obs, rotate);
      if !more {
        break;
      }
      pos := pos + 8;
      idx := idx + 1;
    }
    EndOfStream(input, pos, idx, output, queries, shift, obs, rotate);
  }

  /** When fewer than eight bytes remain after `idx - 1` pairs, those pairs
      are all the complete pairs of the input, the output so far is the whole
      corrected stream and the oracle calls so far are all of them. */
  lemma EndOfStream(input: seq<Byte>, pos: nat, idx: nat, output: seq<Byte>, queries: seq<Query>,
                    shift: Option<real>, obs: Observation, rotate: Rotation)
    requires obs.rate > 0 && Progress(input, pos, idx, output, queries, shift, obs, rotate)
    requires |input| < pos + 8
    ensures idx == |input| / 8 + 1
    ensures |output| == 8 * (idx - 1)
    ensures DecodeSamples(output) == Corrected(DecodeSamples(input), obs, rotate)
    ensures output == EncodeSamples(Corrected(DecodeSamples(input), obs, rotate))
    ensures queries == Queries(obs, idx - 1)
  {
    DivModUnique(|input|, 8, idx - 1, |input| - pos);
    DecodeSamplesIgnoresPartialPair(input);
    DecodeEncodeSamples(Corrected(DecodeSamples(input), obs, rotate));
  }
}

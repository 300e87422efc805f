/** When the held Doppler offset is refreshed, which time the orbital oracle
    is asked about, and which offset is in force at each 1-based sample index. */
module Schedule {
  import opened Arith

  /** The fixed inputs of one correction run. `doppler` is the orbital
      prediction for the fixed satellite elements, observer location and
      carrier frequency, as a function of the absolute unix second. */
  datatype Observation = Observation(start: int, rate: nat, doppler: int -> real)

  /** One call of the oracle: the sample index that triggered it and the
      unix second it was asked about. */
  datatype Query = Query(index: nat, time: int)

  /** The refresh test for sample `i` once an offset is held; sample 1 always
      refreshes because no offset is held yet. */
  predicate IsRefresh(i: nat, rate: nat)
    requires rate > 0
  {
    i == 1 || i % rate == 0
  }

  /** The unix second the oracle is asked about at index `i`: the start time
      plus the whole seconds elapsed, the quotient truncated. */
  function OracleTime(obs: Observation, i: nat): int
    requires obs.rate > 0
  {
    obs.start + i / obs.rate
  }

  /** The oracle time is the start time plus the whole number of seconds
      `i / rate` rounds down to. */
  lemma OracleTimeWholeSeconds(obs: Observation, i: nat)
    requires obs.rate > 0
    ensures var s := OracleTime(obs, i) - obs.start;
            s * obs.rate <= i < (s + 1) * obs.rate
  {
    DivModUnique(i, obs.rate, i / obs.rate, i % obs.rate);
  }

  /** The signal time of sample `i` used for its phase: not truncated. */
  function PhaseTime(obs: Observation, i: nat): real
    requires obs.rate > 0
  {
    i as real / obs.rate as real
  }

  /** The whole seconds in the oracle time are the phase time rounded down. */
  lemma OracleTimeFloorsPhaseTime(obs: Observation, i: nat)
    requires obs.rate > 0
    ensures var whole := (OracleTime(obs, i) - obs.start) as real;
            whole <= PhaseTime(obs, i) < whole + 1.0
  {
    OracleTimeWholeSeconds(obs, i);
    RealFloor(OracleTime(obs, i) - obs.start, i, obs.rate);
  }

  /** At a refresh past the first, and at every index when the rate is 1,
      the oracle time agrees exactly with the phase time; at index 1 with a
      rate above 1 the oracle is asked about the start second although the
      phase time is already 1/rate. */
  lemma OracleTimeAtRefresh(obs: Observation, i: nat)
    requires obs.rate > 0 && IsRefresh(i, obs.rate)
    ensures (i % obs.rate == 0) ==> (OracleTime(obs, i) - obs.start) as real == PhaseTime(obs, i)
    ensures (i == 1 && obs.rate > 1) ==> OracleTime(obs, i) == obs.start && PhaseTime(obs, i) > 0.0
  {
    var k := i / obs.rate;
    if i % obs.rate == 0 {
      DivModUnique(i, obs.rate, k, 0);
      MulToReal(k, obs.rate);
      RealDivMul(k as real, obs.rate as real);
    } else if obs.rate > 1 {
      DivModUnique(1, obs.rate, 0, 1);
    }
  }

  /** The most recent refresh index at or before `i`. */
  function LastRefresh(i: nat, rate: nat): (j: nat)
    requires i >= 1 && rate > 0
    ensures 1 <= j <= i && IsRefresh(j, rate)
    ensures forall k :: j < k <= i ==> !IsRefresh(k, rate)
  {
    if i < rate then
      forall k | 1 < k <= i
        ensures !IsRefresh(k, rate)
      {
        DivModUnique(k, rate, 0, k);
      }
      1
    else
      SecondStart(i, rate);
      i / rate * rate
  }

  /** Past the first second, the last multiple of the rate at or before `i`
      is a refresh index and no index after it up to `i` is one. */
  lemma SecondStart(i: nat, rate: nat)
    requires rate > 0 && i >= rate
    ensures var j := i / rate * rate;
            rate <= j <= i && IsRefresh(j, rate) && forall k :: j < k <= i ==> !IsRefresh(k, rate)
  {
    var m := i / rate;
    DivModUnique(i, rate, m, i % rate);
    MulLe(1, m, rate);
    DivModUnique(m * rate, rate, m, 0);
    forall k | m * rate < k <= i
      ensures !IsRefresh(k, rate)
    {
      DivModUnique(k, rate, m, k - m * rate);
    }
  }

  /** The Doppler offset in force at sample `i`: the negated oracle value at
      the most recent refresh. */
  function ShiftAt(obs: Observation, i: nat): real
    requires i >= 1 && obs.rate > 0
  {
    -obs.doppler(OracleTime(obs, LastRefresh(i, obs.rate)))
  }

  /** A refresh installs the negated oracle value for its own index. */
  lemma ShiftAtRefresh(obs: Observation, i: nat)
    requires i >= 1 && obs.rate > 0 && IsRefresh(i, obs.rate)
    ensures ShiftAt(obs, i) == -obs.doppler(OracleTime(obs, i))
  {
  }

  /** Between refreshes the offset is held: a sample that does not refresh
      uses the offset of the sample before it. */
  lemma ShiftHeld(obs: Observation, i: nat)
    requires i > 1 && obs.rate > 0 && !IsRefresh(i, obs.rate)
    ensures ShiftAt(obs, i) == ShiftAt(obs, i - 1)
  {
  }

  /** The offset applied to sample `i` is the negated oracle value from any
      refresh index `j <= i` with no refresh after it up to `i`. */
  lemma {:induction false} ShiftFromLatestRefresh(obs: Observation, j: nat, i: nat)
    requires 1 <= j <= i && obs.rate > 0 && IsRefresh(j, obs.rate)
    requires forall k :: j < k <= i ==> !IsRefresh(k, obs.rate)
    ensures ShiftAt(obs, i) == -obs.doppler(OracleTime(obs, j))
  {
    if i == j {
      ShiftAtRefresh(obs, i);
    } else {
      ShiftHeld(obs, i);
      ShiftFromLatestRefresh(obs, j, i - 1);
    }
  }

  /** The oracle calls made while processing samples 1 to `n`, in order. */
  function Queries(obs: Observation, n: nat): seq<Query>
    requires obs.rate > 0
  {
    if n == 0 then []
    else if IsRefresh(n, obs.rate) then Queries(obs, n - 1) + [Query(n, OracleTime(obs, n))]
    else Queries(obs, n - 1)
  }

  /** Every call is made at a refresh index among the first `n`, asks about
      that index's oracle time, and the calls come in increasing index order. */
  lemma {:induction false} QueriesWellFormed(obs: Observation, n: nat)
    requires obs.rate > 0
    ensures forall k :: 0 <= k < |Queries(obs, n)| ==>
              var q := Queries(obs, n)[k];
              1 <= q.index <= n && IsRefresh(q.index, obs.rate) && q.time == OracleTime(obs, q.index)
    ensures forall k, l :: 0 <= k < l < |Queries(obs, n)| ==> Queries(obs, n)[k].index < Queries(obs, n)[l].index
  {
    if n > 0 {
      var before := Queries(obs, n - 1);
      QueriesWellFormed(obs, n - 1);
      if IsRefresh(n, obs.rate) {
        var qs := before + [Query(n, OracleTime(obs, n))];
        assert Queries(obs, n) == qs;
        forall k | 0 <= k < |qs|
          ensures 1 <= qs[k].index <= n && IsRefresh(qs[k].index, obs.rate)
          ensures qs[k].time == OracleTime(obs, qs[k].index)
        {
          if k < |before| {
            assert qs[k] == before[k];
          } else {
            assert qs[k] == Query(n, OracleTime(obs, n));
          }
        }
        forall k, l | 0 <= k < l < |qs|
          ensures qs[k].index < qs[l].index
        {
          assert qs[k] == before[k];
          if l < |before| {
            assert qs[l] == before[l];
          }
        }
      } else {
        assert Queries(obs, n) == before;
      }
    }
  }

  /** The oracle is called at index `i` if and only if `i` is a refresh index. */
  lemma {:induction false} QueriedIffRefresh(obs: Observation, n: nat, i: nat)
    requires obs.rate > 0
    ensures (exists k :: 0 <= k < |Queries(obs, n)| && Queries(obs, n)[k].index == i)
        <==> 1 <= i <= n && IsRefresh(i, obs.rate)
  {
    var qs := Queries(obs, n);
    QueriesWellFormed(obs, n);
    if 1 <= i <= n && IsRefresh(i, obs.rate) {
      QueriedAtRefresh(obs, n, i);
    }
  }

  /** A refresh index among the first `n` appears in the calls. */
  lemma {:induction false} QueriedAtRefresh(obs: Observation, n: nat, i: nat)
    requires obs.rate > 0 && 1 <= i <= n && IsRefresh(i, obs.rate)
    ensures exists k :: 0 <= k < |Queries(obs, n)| && Queries(obs, n)[k].index == i
  {
    var before := Queries(obs, n - 1);
    if i == n {
      var qs := before + [Query(n, OracleTime(obs, n))];
      assert Queries(obs, n) == qs;
      assert qs[|before|].index == i;
    } else {
      QueriedAtRefresh(obs, n - 1, i);
      var k :| 0 <= k < |before| && before[k].index == i;
      if IsRefresh(n, obs.rate) {
        var qs := before + [Query(n, OracleTime(obs, n))];
        assert Queries(obs, n) == qs;
        assert qs[k].index == i;
      } else {
        assert Queries(obs, n)[k].index == i;
      }
    }
  }

  /** The index before a multiple of the rate is still in the previous second. */
  lemma MultipleBelow(n: nat, rate: nat)
    requires rate > 0 && n >= 1 && n % rate == 0
    ensures n == n / rate * rate && (n - 1) / rate == n / rate - 1
  {
    var m := n / rate;
    DivModUnique(n, rate, m, 0);
    DivModUnique(n - 1, rate, m - 1, rate - 1);
  }

  /** The number of oracle calls for `n >= 1` samples. */
  lemma {:induction false} QueryCount(obs: Observation, n: nat)
    requires obs.rate > 0 && n >= 1
    ensures |Queries(obs, n)| == n / obs.rate + (if obs.rate > 1 then 1 else 0)
  {
    var rate := obs.rate;
    if n > 1 {
      QueryCount(obs, n - 1);
      if n % rate == 0 {
        MultipleBelow(n, rate);
      } else {
        DivModUnique(n, rate, n / rate, n % rate);
        DivModUnique(n - 1, rate, n / rate, n % rate - 1);
      }
    }
  }

  /** The `k`-th oracle call: counting seconds `m` from the first call (from 1
      when every sample refreshes), it happens at index `m * rate` (index 1
      for second 0) and asks about the unix second `start + m`. */
  lemma {:induction false} QueryAt(obs: Observation, n: nat, k: nat)
    requires obs.rate > 0 && k < |Queries(obs, n)|
    ensures var m := if obs.rate > 1 then k else k + 1;
            Queries(obs, n)[k] == Query(if m == 0 then 1 else m * obs.rate, obs.start + m)
  {
    var rate := obs.rate;
    if k < |Queries(obs, n - 1)| {
      QueryAt(obs, n - 1, k);
    } else {
      assert IsRefresh(n, rate) && k == |Queries(obs, n - 1)|;
      if n > 1 {
        QueryCount(obs, n - 1);
        MultipleBelow(n, rate);
      }
    }
  }

  /** 2500 samples at 1000 samples per second: calls at indices 1, 1000 and
      2000, about the start second and the two after it. */
  lemma ExampleSchedule(start: int, doppler: int -> real)
    ensures var obs := Observation(start, 1000, doppler);
            Queries(obs, 2500) == [Query(1, start), Query(1000, start + 1), Query(2000, start + 2)]
  {
    var obs := Observation(start, 1000, doppler);
    QueryCount(obs, 2500);
    QueryAt(obs, 2500, 0);
    QueryAt(obs, 2500, 1);
    QueryAt(obs, 2500, 2);
  }

  /** The offset in force at sample `i` is the negated answer of the latest
      oracle call made up to `i`. */
  lemma {:induction false} ShiftFromLatestQuery(obs: Observation, i: nat)
    requires i >= 1 && obs.rate > 0
    ensures |Queries(obs, i)| > 0
    ensures ShiftAt(obs, i) == -obs.doppler(Queries(obs, i)[|Queries(obs, i)| - 1].time)
  {
    if IsRefresh(i, obs.rate) {
      ShiftAtRefresh(obs, i);
    } else {
      ShiftHeld(obs, i);
      ShiftFromLatestQuery(obs, i - 1);
    }
  }
}

/** How the policy daemon lengthens its sampling interval while the services are idle. */
module Backoff {

  /** The interval in milliseconds and the rounds spent at it. */
  datatype State = State(timeout: int, iter: int)

  /** What one round sees: the processor time used, and whether the sleep was cut short. */
  datatype Round = Round(pss: nat, woken: bool)

  /** The load above which a round counts as busy grows with a long interval. */
  function Limit(timeout: int): int {
    if timeout > 60000 then timeout / 10000 + 2 else 6
  }

  /** How many rounds are spent at an interval before it grows. */
  function IterLimit(default: int, timeout: int): int {
    if timeout == default then 120 else if timeout == 2 * default then 29 else 0
  }

  predicate Quiet(timeout: int, round: Round) {
    round.pss <= Limit(timeout) && !round.woken
  }

  // ---------------------------------------------------------------------------
  // The meaning of a run
  // ---------------------------------------------------------------------------

  /** The state `n` quiet rounds after a reset. */
  function AfterQuiet(default: int, n: nat): State {
    if n <= 120 then State(default, n)
    else if n <= 150 then State(2 * default, n - 121)
    else if n == 151 then State(8 * default, 0)
    else if n == 152 then State(32 * default, 0)
    else if n == 153 then State(128 * default, 0)
    else if n == 154 then State(512 * default, 0)
    else State(1280 * default, 0)
  }

  /** The number of quiet rounds at the end of a run, each judged at the interval then in force. */
  function Streak(default: int, rounds: seq<Round>): nat {
    if rounds == [] then 0
    else
      var before := Streak(default, rounds[..|rounds| - 1]);
      if Quiet(AfterQuiet(default, before).timeout, rounds[|rounds| - 1]) then before + 1 else 0
  }

  class PolicyDaemon {
    const defaultTimeout: int
    var timeout: int
    var iter: int

    constructor (samplingInterval: int)
      requires samplingInterval > 0
      ensures defaultTimeout == samplingInterval && Current() == AfterQuiet(samplingInterval, 0)
    {
      defaultTimeout, timeout, iter := samplingInterval, samplingInterval, 0;
    }

    function Current(): State
      reads this
    {
      State(timeout, iter)
    }

    /** With the limit of the interval in force, a load that is not too high turns `n` quiet
        rounds into one more, and any other load into none. */
    method StateTransfer(pss: nat, iterLimit: int)
      requires defaultTimeout > 0 && timeout > 0
      modifies this
      ensures iterLimit == IterLimit(defaultTimeout, old(timeout)) ==>
                forall n: nat :: old(Current()) == AfterQuiet(defaultTimeout, n) ==>
                  Current() == AfterQuiet(defaultTimeout, if pss <= Limit(old(timeout)) then n + 1 else 0)
      ensures old(timeout) <= 1280 * defaultTimeout ==> timeout <= 1280 * defaultTimeout
      ensures 0 <= old(iter) <= iterLimit ==> 0 <= iter <= iterLimit
    {
      var limit := if timeout > 60000 then timeout / 10000 + 2 else 6;
      if pss > limit {
        timeout := defaultTimeout;
        iter := 0;
      } else if iter == iterLimit {
        var nextTimeout := if timeout == defaultTimeout then timeout * 2 else timeout * 4;
        var longest := defaultTimeout * 1024 + defaultTimeout * 256;
        timeout := if nextTimeout >= longest then longest else nextTimeout;
        iter := 0;
      } else {
        iter := iter + 1;
      }
    }

    /** One round: `n` quiet rounds become `n + 1`, or none. */
    method GotoSleep(pss: nat, woken: bool, ghost n: nat)
      requires defaultTimeout > 0 && Current() == AfterQuiet(defaultTimeout, n)
      modifies this
      ensures Current() == AfterQuiet(defaultTimeout, if Quiet(old(timeout), Round(pss, woken)) then n + 1 else 0)
    {
      if timeout == defaultTimeout {
        StateTransfer(pss, 120);
      } else if timeout == 2 * defaultTimeout {
        StateTransfer(pss, 29);
      } else {
        StateTransfer(pss, 0);
      }
      if woken {
        timeout := defaultTimeout;
        iter := 0;
      }
    }

    /** The daemon's loop over any rounds whatever: its state is that of the quiet streak they end in. */
    method Run(rounds: seq<Round>)
      requires defaultTimeout > 0 && Current() == AfterQuiet(defaultTimeout, 0)
      modifies this
      ensures Current() == AfterQuiet(defaultTimeout, Streak(defaultTimeout, rounds))
    {
      for i := 0 to |rounds|
        invariant Current() == AfterQuiet(defaultTimeout, Streak(defaultTimeout, rounds[..i]))
      {
        assert rounds[..i + 1][..i] == rounds[..i];
        GotoSleep(rounds[i].pss, rounds[i].woken, Streak(defaultTimeout, rounds[..i]));
      }
      assert rounds[..|rounds|] == rounds;
    }
  }

  // ---------------------------------------------------------------------------
  // What follows for every run
  // ---------------------------------------------------------------------------

  /** The only intervals there are, with the count never above the limit of the interval. */
  lemma OnALevel(default: int, rounds: seq<Round>)
    requires default > 0
    ensures var s := AfterQuiet(default, Streak(default, rounds));
            && s.timeout in {default, 2 * default, 8 * default,
                            32 * default, 128 * default, 512 * default, 1280 * default}
            && 0 <= s.iter <= IterLimit(default, s.timeout)
  {
    var n := Streak(default, rounds);
    assert 120 < n <= 150 ==> AfterQuiet(default, n).timeout == 2 * default != default;
    assert n > 150 ==> AfterQuiet(default, n).iter == 0;
  }

  /** The longest interval is in force exactly after 155 or more quiet rounds in a row. */
  lemma LongestIff(default: int, rounds: seq<Round>)
    requires default > 0
    ensures AfterQuiet(default, Streak(default, rounds)).timeout == 1280 * default <==> Streak(default, rounds) >= 155
    ensures AfterQuiet(default, Streak(default, rounds)).timeout == default <==> Streak(default, rounds) <= 120
  {
    var n := Streak(default, rounds);
    assert default < 2 * default < 8 * default < 32 * default < 128 * default < 512 * default < 1280 * default;
  }

  ghost predicate AllIdle(rounds: seq<Round>) {
    forall k :: 0 <= k < |rounds| ==> rounds[k].pss <= 6 && !rounds[k].woken
  }

  /** Rounds of no more than 6 ticks are quiet at any interval and only add to the streak. */
  lemma {:induction false} IdleRoundsAdd(default: int, rounds: seq<Round>, idle: seq<Round>)
    requires default > 0 && AllIdle(idle)
    ensures Streak(default, rounds + idle) == Streak(default, rounds) + |idle|
  {
    if idle == [] {
      assert rounds + idle == rounds;
    } else {
      var front := idle[..|idle| - 1];
      IdleRoundsAdd(default, rounds, front);
      assert (rounds + idle)[..|rounds + idle| - 1] == rounds + front;
      assert idle[|idle| - 1].pss <= 6;
    }
  }

  /** A wakeup, or a load above the limit in force, ends any streak. */
  lemma ResetEndsStreak(default: int, rounds: seq<Round>, last: Round)
    requires default > 0
    requires last.woken || last.pss > Limit(AfterQuiet(default, Streak(default, rounds)).timeout)
    ensures AfterQuiet(default, Streak(default, rounds + [last])) == State(default, 0)
  {
    assert (rounds + [last])[..|rounds|] == rounds;
  }

  /** From any past whatever, 155 idle rounds lead to the longest interval, and no more lead away. */
  lemma IdlenessSettles(default: int, rounds: seq<Round>, idle: seq<Round>)
    requires default > 0 && AllIdle(idle) && |idle| >= 155
    ensures AfterQuiet(default, Streak(default, rounds + idle)) == State(1280 * default, 0)
  {
    IdleRoundsAdd(default, rounds, idle);
  }
}

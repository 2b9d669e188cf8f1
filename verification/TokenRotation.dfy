/** The bearer token: its shape gate, the fold that compares it, the swap, and
    the reload loop with its two once-per-episode warnings. */
module TokenRotation {
  import opened Integers

  type Token = seq<bv8>

  const BEARER_TOKEN_MIN_LEN: nat := 32
  const RELOAD_TOKEN_MAX_LEN: nat := 512
  const FAILURE_WARN_THRESHOLD: nat := 3

  /** The shape gate: 32 to 512 visible ASCII bytes, not all the same. */
  predicate IsValidReloadToken(token: Token) {
    && BEARER_TOKEN_MIN_LEN <= |token| <= RELOAD_TOKEN_MAX_LEN
    && (forall b | b in token :: 0x21 <= b <= 0x7E)
    && exists b :: b in token && b != token[0]
  }

  /** The gate on each byte and each length: 32 and 512 bytes pass and 31 and 513
      do not, `!` and `~` pass and what lies beyond them does not, and two
      bytes must differ. */
  lemma GateExactly(token: Token)
    ensures IsValidReloadToken(token) <==>
            && 32 <= |token| <= 512
            && (forall i | 0 <= i < |token| :: '!' as int <= token[i] as int <= '~' as int)
            && (exists i, j | 0 <= i < j < |token| :: token[i] != token[j])
  {
    if i, j :| 0 <= i < j < |token| && token[i] != token[j] {
      assert token[i] in token && token[j] in token;
    }
    if b :| b in token && b != token[0] {
      var j :| 0 <= j < |token| && token[j] == b;
      assert token[0] != token[j];
    }
    forall i | 0 <= i < |token| ensures token[i] in token && ('!' as int <= token[i] as int <= '~' as int <==> 0x21 <= token[i] <= 0x7E) {
      ByteRange(token[i]);
    }
  }

  lemma ByteRange(b: bv8)
    ensures '!' as int <= b as int <= '~' as int <==> 0x21 <= b <= 0x7E
  {
  }

  lemma OrXorIsZero(acc: bv8, a: bv8, b: bv8)
    ensures acc | (a ^ b) == 0 <==> acc == 0 && a == b
  {
  }

  /** The comparison folds every byte pair with XOR and OR, whatever it has
      seen so far, and accepts exactly the equal strings. */
  method ConstantTimeTokenEq(candidate: Token, expected: Token) returns (equal: bool)
    ensures equal <==> candidate == expected
  {
    if |candidate| != |expected| {
      return false;
    }
    var acc: bv8 := 0;
    for i := 0 to |candidate|
      invariant acc == 0 <==> candidate[..i] == expected[..i]
    {
      OrXorIsZero(acc, candidate[i], expected[i]);
      assert candidate[..i + 1] == candidate[..i] + [candidate[i]];
      assert expected[..i + 1] == expected[..i] + [expected[i]];
      acc := acc | (candidate[i] ^ expected[i]);
    }
    assert candidate[..|candidate|] == candidate && expected[..|expected|] == expected;
    equal := acc == 0;
  }

  datatype TokenReloadOutcome = Rotated | Unchanged | RejectedInvalid

  ghost function OutcomeOf(live: Token, fetched: Token): TokenReloadOutcome {
    if fetched == live then Unchanged else if IsValidReloadToken(fetched) then Rotated else RejectedInvalid
  }

  /** The shared token. `enabled` is decided once, at boot. */
  class ApiAuthConfig {
    var bearerToken: Token
    const enabled: bool

    constructor (token: Token)
      ensures bearerToken == token && enabled == (token != [])
    {
      bearerToken := token;
      enabled := token != [];
    }

    method RotateBearerToken(newToken: Token) returns (r: TokenReloadOutcome)
      modifies this
      ensures r == OutcomeOf(old(bearerToken), newToken)
      ensures bearerToken == if r.Rotated? then newToken else old(bearerToken)
      ensures r == Unchanged <==> newToken == old(bearerToken)
      ensures r == Rotated <==>
              && newToken != old(bearerToken) && 32 <= |newToken| <= 512
              && (forall i | 0 <= i < |newToken| :: '!' as int <= newToken[i] as int <= '~' as int)
              && (exists i, j | 0 <= i < j < |newToken| :: newToken[i] != newToken[j])
    {
      GateExactly(newToken);
      var same := ConstantTimeTokenEq(newToken, bearerToken);
      if same {
        return Unchanged;
      }
      if !IsValidReloadToken(newToken) {
        return RejectedInvalid;
      }
      bearerToken := newToken;
      r := Rotated;
    }

    /** The token half of the request check. */
    method Accepts(candidate: Token) returns (ok: bool)
      ensures ok <==> candidate == bearerToken
    {
      ok := ConstantTimeTokenEq(candidate, bearerToken);
    }
  }

  // ------------------------------------------------------- the reload loop

  /** What one read of the parameter store gives. */
  datatype Fetch = Fetched(token: Token) | ReadFailed

  /** The loop's own memory. */
  datatype Latches = Latches(consecutiveFailures: nat, warnedFailure: bool, warnedRejected: bool)

  datatype Warnings = Warnings(failure: bool, rejected: bool)

  datatype Cycle = Cycle(token: Token, latches: Latches, warned: Warnings)

  function SaturatingIncrement(n: nat): nat {
    if n < U32_MAX then n + 1 else n
  }

  predicate ShouldWarnFailureStreak(consecutive: nat, alreadyWarned: bool) {
    consecutive >= FAILURE_WARN_THRESHOLD && !alreadyWarned
  }

  /** One wake of the loop. */
  ghost function NextCycle(token: Token, l: Latches, f: Fetch): Cycle {
    match f
    case Fetched(t) =>
      (match OutcomeOf(token, t)
       case Rotated => Cycle(t, Latches(0, false, false), Warnings(false, false))
       case Unchanged => Cycle(token, Latches(0, false, false), Warnings(false, false))
       case RejectedInvalid => Cycle(token, Latches(0, false, true), Warnings(false, !l.warnedRejected)))
    case ReadFailed =>
      var n := SaturatingIncrement(l.consecutiveFailures);
      var warn := ShouldWarnFailureStreak(n, l.warnedFailure);
      Cycle(token, Latches(n, l.warnedFailure || warn, l.warnedRejected), Warnings(warn, false))
  }

  class ReloadLoop {
    const config: ApiAuthConfig
    var consecutiveFailures: nat
    var warnedFailureEpisode: bool
    var warnedRejectedEpisode: bool

    constructor (config: ApiAuthConfig)
      ensures this.config == config && Memory() == Latches(0, false, false)
    {
      this.config := config;
      consecutiveFailures, warnedFailureEpisode, warnedRejectedEpisode := 0, false, false;
    }

    ghost function Memory(): Latches
      reads this
    {
      Latches(consecutiveFailures, warnedFailureEpisode, warnedRejectedEpisode)
    }

    method Wake(fetch: Fetch) returns (failureWarned: bool, rejectionWarned: bool)
      modifies this, config
      ensures Cycle(config.bearerToken, Memory(), Warnings(failureWarned, rejectionWarned))
           == NextCycle(old(config.bearerToken), old(Memory()), fetch)
    {
      failureWarned, rejectionWarned := false, false;
      match fetch
      case Fetched(token) =>
        consecutiveFailures := 0;
        warnedFailureEpisode := false;
        var outcome := config.RotateBearerToken(token);
        match outcome {
          case Rotated => warnedRejectedEpisode := false;
          case Unchanged => warnedRejectedEpisode := false;
          case RejectedInvalid =>
            if !warnedRejectedEpisode {
              warnedRejectedEpisode := true;
              rejectionWarned := true;
            }
        }
      case ReadFailed =>
        consecutiveFailures := SaturatingIncrement(consecutiveFailures);
        if ShouldWarnFailureStreak(consecutiveFailures, warnedFailureEpisode) {
          warnedFailureEpisode := true;
          failureWarned := true;
        }
    }
  }

  // ------------------------------------------------------------ whole runs

  /** The loop after a sequence of reads, and the warnings of the last one. */
  ghost function After(boot: Token, fetches: seq<Fetch>): Cycle {
    if fetches == [] then Cycle(boot, Latches(0, false, false), Warnings(false, false))
    else
      var c := After(boot, fetches[..|fetches| - 1]);
      NextCycle(c.token, c.latches, fetches[|fetches| - 1])
  }

  /** The last fetched value that passed the shape gate, or the boot token. */
  ghost function LastGood(boot: Token, fetches: seq<Fetch>): Token {
    if fetches == [] then boot
    else
      var last := fetches[|fetches| - 1];
      if last.Fetched? && IsValidReloadToken(last.token) then last.token
      else LastGood(boot, fetches[..|fetches| - 1])
  }

  /** Over any reads the live token is the last good one: a bad value is never
      swapped in, a good one always is, and failures change nothing. */
  lemma {:induction false} LiveTokenIsLastGood(boot: Token, fetches: seq<Fetch>)
    ensures After(boot, fetches).token == LastGood(boot, fetches)
  {
    if fetches != [] {
      LiveTokenIsLastGood(boot, fetches[..|fetches| - 1]);
    }
  }

  /** How many reads in a row have failed at the end. */
  ghost function Streak(fetches: seq<Fetch>): nat {
    if fetches == [] || fetches[|fetches| - 1].Fetched? then 0 else 1 + Streak(fetches[..|fetches| - 1])
  }

  lemma {:induction false} LatchesFollowStreak(boot: Token, fetches: seq<Fetch>)
    ensures var l := After(boot, fetches).latches;
            && l.consecutiveFailures == (if Streak(fetches) <= U32_MAX then Streak(fetches) else U32_MAX)
            && (l.warnedFailure <==> Streak(fetches) >= FAILURE_WARN_THRESHOLD)
  {
    if fetches != [] {
      LatchesFollowStreak(boot, fetches[..|fetches| - 1]);
    }
  }

  /** The failure warning fires exactly at the third failed read in a row, so
      once for each maximal run of three or more. */
  lemma FailureWarnedOncePerStreak(boot: Token, fetches: seq<Fetch>)
    ensures After(boot, fetches).warned.failure <==> Streak(fetches) == 3
  {
    if fetches != [] {
      LatchesFollowStreak(boot, fetches[..|fetches| - 1]);
    }
  }

  /** What read `i` came to. */
  ghost predicate RejectedAt(boot: Token, fetches: seq<Fetch>, i: nat)
    requires i < |fetches|
  {
    fetches[i].Fetched? && OutcomeOf(LastGood(boot, fetches[..i]), fetches[i].token).RejectedInvalid?
  }

  /** The last read that was not a failure was rejected. */
  ghost predicate InRejectedEpisode(boot: Token, fetches: seq<Fetch>) {
    fetches != [] &&
    if fetches[|fetches| - 1].ReadFailed? then InRejectedEpisode(boot, fetches[..|fetches| - 1])
    else RejectedAt(boot, fetches, |fetches| - 1)
  }

  lemma {:induction false} LatchFollowsEpisode(boot: Token, fetches: seq<Fetch>)
    ensures After(boot, fetches).latches.warnedRejected <==> InRejectedEpisode(boot, fetches)
  {
    if fetches != [] {
      LatchFollowsEpisode(boot, fetches[..|fetches| - 1]);
      LiveTokenIsLastGood(boot, fetches[..|fetches| - 1]);
    }
  }

  /** The rejection warning fires exactly at the first rejected read of an
      episode; failed reads in between do not start a new one. */
  lemma RejectionWarnedOncePerEpisode(boot: Token, fetches: seq<Fetch>, f: Fetch)
    ensures After(boot, fetches + [f]).warned.rejected
       <==> RejectedAt(boot, fetches + [f], |fetches|) && !InRejectedEpisode(boot, fetches)
  {
    assert (fetches + [f])[..|fetches|] == fetches;
    LatchFollowsEpisode(boot, fetches);
    LiveTokenIsLastGood(boot, fetches);
  }

  /** No run of reads can blank the token or let a weak one in. */
  lemma TokenIsBootOrGood(boot: Token, fetches: seq<Fetch>)
    ensures var live := After(boot, fetches).token;
            live == boot || (IsValidReloadToken(live) && Fetched(live) in fetches)
  {
    LiveTokenIsLastGood(boot, fetches);
    LastGoodIsBootOrFetched(boot, fetches);
  }

  lemma {:induction false} LastGoodIsBootOrFetched(boot: Token, fetches: seq<Fetch>)
    ensures var live := LastGood(boot, fetches);
            live == boot || (IsValidReloadToken(live) && Fetched(live) in fetches)
  {
    if fetches != [] {
      var last := fetches[|fetches| - 1];
      if !(last.Fetched? && IsValidReloadToken(last.token)) {
        LastGoodIsBootOrFetched(boot, fetches[..|fetches| - 1]);
      } else {
        assert last == fetches[|fetches| - 1];
      }
    }
  }
}

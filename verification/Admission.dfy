/**
 Admission of signed requests by the local automation server (local-rpc-server.ts): timestamp
 skew, the sliding one-minute rate limit, and the table of used nonces. Verifying keys, digests
 and signatures is represented by the answers it gives. Times are whole milliseconds, and each
 request reads the clock once.
 */
module AdmissionSpec {
  import opened Common

  const REQUEST_SKEW_MS := 60_000
  const NONCE_LIFETIME_MS := 600_000
  const MAX_NONCES_PER_CLIENT := 1_024
  const MAX_REQUESTS_PER_MINUTE := 60
  const RATE_WINDOW_MS := 60_000

  datatype Account = Account(revoked: bool, scopes: set<string>)

  datatype Request = Request(
    client: string,
    nonce: string,
    timestamp: int,
    requiredScope: string,
    account: Option<Account>,   // what the database knows about the client
    paramsMatch: bool,          // the digest in the request is that of its parameters
    keysWellFormed: bool,       // the stored key and the signature decode
    signatureValid: bool)

  datatype Refusal =
    | RequestSkew | ParamsChanged | ClientRevoked | ScopeDenied | InvalidKey | BadSignature
    | RateLimited | NonceReplay | NonceCapacity

  // Times of counted requests and expiry times of nonces, by client.
  datatype Tables = Tables(times: map<string, seq<int>>, nonces: map<string, map<string, int>>)

  const EMPTY := Tables(map[], map[])

  function Prune(values: seq<int>, now: int): seq<int> {
    if values == [] then []
    else (if values[0] > now - RATE_WINDOW_MS then [values[0]] else []) + Prune(values[1..], now)
  }

  function Unexpired(nonces: map<string, int>, now: int): map<string, int> {
    map nonce | nonce in nonces && nonces[nonce] > now :: nonces[nonce]
  }

  function Abs(x: int): int {
    if x < 0 then -x else x
  }

  // The checks that come before anything is counted, in their order.
  function Credentials(r: Request, now: int): Option<Refusal> {
    if Abs(r.timestamp - now) > REQUEST_SKEW_MS then Some(RequestSkew)
    else if !r.paramsMatch then Some(ParamsChanged)
    else if r.account.None? || r.account.value.revoked then Some(ClientRevoked)
    else if r.requiredScope !in r.account.value.scopes then Some(ScopeDenied)
    else if !r.keysWellFormed then Some(InvalidKey)
    else if !r.signatureValid then Some(BadSignature)
    else None
  }

  function TimesOf(t: Tables, client: string): seq<int> {
    if client in t.times then t.times[client] else []
  }

  function NoncesOf(t: Tables, client: string): map<string, int> {
    if client in t.nonces then t.nonces[client] else map[]
  }

  // The refusal of a request, if any.
  function Verdict(t: Tables, r: Request, now: int): Option<Refusal> {
    var credentials := Credentials(r, now);
    var nonces := Unexpired(NoncesOf(t, r.client), now);
    if credentials.Some? then credentials
    else if |Prune(TimesOf(t, r.client), now)| >= MAX_REQUESTS_PER_MINUTE then Some(RateLimited)
    else if r.nonce in nonces then Some(NonceReplay)
    else if |nonces| >= MAX_NONCES_PER_CLIENT then Some(NonceCapacity)
    else None
  }

  // A request counts against the rate limit once its credentials and the limit are passed,
  // whether or not its nonce is accepted.
  predicate Counts(verdict: Option<Refusal>) {
    verdict.None? || verdict.value.NonceReplay? || verdict.value.NonceCapacity?
  }

  function After(t: Tables, r: Request, now: int): Tables {
    var verdict := Verdict(t, r, now);
    if !Counts(verdict) then t
    else
      var nonces := Unexpired(NoncesOf(t, r.client), now);
      Tables(t.times[r.client := Prune(TimesOf(t, r.client), now) + [now]],
             if verdict.None? then t.nonces[r.client := nonces[r.nonce := now + NONCE_LIFETIME_MS]]
             else t.nonces[r.client := nonces])
  }

  // ---------------------------------------------------------------- runs

  datatype Arrival = Arrival(request: Request, now: int)

  ghost predicate ClockRuns(run: seq<Arrival>) {
    forall i, j | 0 <= i < j < |run| :: run[i].now <= run[j].now
  }

  function TablesAfter(run: seq<Arrival>): Tables {
    if run == [] then EMPTY
    else
      var last := run[|run| - 1];
      After(TablesAfter(run[..|run| - 1]), last.request, last.now)
  }

  function VerdictAt(run: seq<Arrival>, k: nat): Option<Refusal>
    requires k < |run|
  {
    Verdict(TablesAfter(run[..k]), run[k].request, run[k].now)
  }

  // How many requests of the client were counted after lo and no later than hi.
  function Counted(run: seq<Arrival>, client: string, lo: int, hi: int): nat {
    if run == [] then 0
    else
      var k := |run| - 1;
      Counted(run[..k], client, lo, hi)
      + if run[k].request.client == client && Counts(VerdictAt(run, k)) && lo < run[k].now <= hi then 1 else 0
  }

  function Above(values: seq<int>, lo: int): nat {
    if values == [] then 0
    else Above(values[..|values| - 1], lo) + if values[|values| - 1] > lo then 1 else 0
  }

  lemma Extend(run: seq<Arrival>, arrival: Arrival)
    ensures TablesAfter(run + [arrival]) == After(TablesAfter(run), arrival.request, arrival.now)
    ensures VerdictAt(run + [arrival], |run|) == Verdict(TablesAfter(run), arrival.request, arrival.now)
  {
    assert (run + [arrival])[..|run|] == run;
  }

  lemma {:induction false} AboveSplit(left: seq<int>, right: seq<int>, lo: int)
    ensures Above(left + right, lo) == Above(left, lo) + Above(right, lo)
  {
    if right == [] {
      assert left + right == left;
    } else {
      AboveSplit(left, right[..|right| - 1], lo);
      assert (left + right)[..|left + right| - 1] == left + right[..|right| - 1];
    }
  }

  // Pruning keeps what the window can still see.
  lemma {:induction false} PruneKeeps(values: seq<int>, now: int, lo: int)
    requires lo >= now - RATE_WINDOW_MS
    ensures Above(Prune(values, now), lo) == Above(values, lo)
  {
    if values != [] {
      PruneKeeps(values[1..], now, lo);
      AboveSplit([values[0]], values[1..], lo);
      AboveSplit(if values[0] > now - RATE_WINDOW_MS then [values[0]] else [], Prune(values[1..], now), lo);
      assert values == [values[0]] + values[1..];
    }
  }

  lemma {:induction false} PruneAll(values: seq<int>, now: int)
    ensures Above(Prune(values, now), now - RATE_WINDOW_MS) == |Prune(values, now)|
  {
    if values != [] {
      PruneAll(values[1..], now);
      AboveSplit(if values[0] > now - RATE_WINDOW_MS then [values[0]] else [], Prune(values[1..], now), now - RATE_WINDOW_MS);
    }
  }

  // ---------------------------------------------------------------- the rate limit

  // What the pruned table still says about the whole past: it counts correctly in every window
  // that starts no earlier than a minute before the last counted request.
  ghost predicate TimesTell(run: seq<Arrival>, client: string, last: int) {
    var times := TimesOf(TablesAfter(run), client);
    if times == [] then forall lo :: Counted(run, client, lo, last) == 0
    else
      && times[|times| - 1] <= last
      && forall lo | lo >= times[|times| - 1] - RATE_WINDOW_MS :: Counted(run, client, lo, last) == Above(times, lo)
  }

  ghost predicate UpTo(run: seq<Arrival>, last: int) {
    ClockRuns(run) && forall k | 0 <= k < |run| :: run[k].now <= last
  }

  lemma {:induction false} CountedLater(run: seq<Arrival>, client: string, lo: int, hi: int, hi': int)
    requires UpTo(run, hi) && hi <= hi'
    ensures Counted(run, client, lo, hi') == Counted(run, client, lo, hi)
  {
    if run != [] { CountedLater(run[..|run| - 1], client, lo, hi, hi'); }
  }

  lemma {:induction false} TimesTellAlways(run: seq<Arrival>, client: string, last: int)
    requires UpTo(run, last)
    ensures TimesTell(run, client, last)
  {
    if run != [] {
      var k := |run| - 1;
      var before, arrival := run[..k], run[k];
      TimesTellAlways(before, client, arrival.now);
      forall lo ensures Counted(run, client, lo, last) == Counted(before, client, lo, arrival.now)
                        + if arrival.request.client == client && Counts(VerdictAt(run, k)) && lo < arrival.now then 1 else 0
      {
        CountedLater(before, client, lo, arrival.now, last);
      }
      if arrival.request.client == client && Counts(VerdictAt(run, k)) {
        var earlier, times := TimesOf(TablesAfter(before), client), TimesOf(TablesAfter(run), client);
        assert times == Prune(earlier, arrival.now) + [arrival.now];
        forall lo | lo >= arrival.now - RATE_WINDOW_MS ensures Counted(run, client, lo, last) == Above(times, lo) {
          PruneKeeps(earlier, arrival.now, lo);
          AboveSplit(Prune(earlier, arrival.now), [arrival.now], lo);
        }
      }
    }
  }

  lemma CountedLast(run: seq<Arrival>, client: string, lo: int, hi: int)
    requires run != []
    ensures var k := |run| - 1;
            Counted(run, client, lo, hi) == Counted(run[..k], client, lo, hi)
              + if run[k].request.client == client && Counts(VerdictAt(run, k)) && lo < run[k].now <= hi then 1 else 0
  {
  }

  /** No window of a minute holds more than sixty counted requests of one client. */
  lemma {:induction false} RateLimitHolds(run: seq<Arrival>, client: string, hi: int)
    requires ClockRuns(run)
    ensures Counted(run, client, hi - 60_000, hi) <= 60
  {
    if run == [] {
      return;
    }
    var k := |run| - 1;
    var before, arrival := run[..k], run[k];
    var now := arrival.now;
    RateLimitHolds(before, client, hi);
    CountedLast(run, client, hi - RATE_WINDOW_MS, hi);
    hide Counted, Counts;
    if arrival.request.client == client && Counts(VerdictAt(run, k)) && hi - RATE_WINDOW_MS < now <= hi {
      WindowWithinLimit(before, client, now, VerdictAt(run, k), arrival);
      CountedNarrower(before, client, now - RATE_WINDOW_MS, hi - RATE_WINDOW_MS, now);
      CountedLater(before, client, hi - RATE_WINDOW_MS, now, hi);
    }
  }

  // A request that is counted found fewer than sixty others in its window.
  lemma WindowWithinLimit(before: seq<Arrival>, client: string, now: int, verdict: Option<Refusal>, arrival: Arrival)
    requires UpTo(before, now) && arrival.now == now && arrival.request.client == client
    requires verdict == Verdict(TablesAfter(before), arrival.request, now) && Counts(verdict)
    ensures Counted(before, client, now - RATE_WINDOW_MS, now) < MAX_REQUESTS_PER_MINUTE
  {
    TimesTellAlways(before, client, now);
    var times := TimesOf(TablesAfter(before), client);
    PruneKeeps(times, now, now - RATE_WINDOW_MS);
    PruneAll(times, now);
  }

  lemma {:induction false} CountedNarrower(run: seq<Arrival>, client: string, lo: int, lo': int, hi: int)
    requires lo <= lo'
    ensures Counted(run, client, lo', hi) <= Counted(run, client, lo, hi)
  {
    if run != [] { CountedNarrower(run[..|run| - 1], client, lo, lo', hi); }
  }

  lemma {:induction false} CountedSplit(run: seq<Arrival>, client: string, lo: int, mid: int, hi: int)
    requires lo <= mid <= hi
    ensures Counted(run, client, lo, hi) == Counted(run, client, lo, mid) + Counted(run, client, mid, hi)
  {
    if run != [] { CountedSplit(run[..|run| - 1], client, lo, mid, hi); }
  }

  lemma {:induction false} WindowsAddUp(run: seq<Arrival>, client: string, hi: int, n: nat)
    requires ClockRuns(run)
    ensures Counted(run, client, hi - n * RATE_WINDOW_MS, hi) <= n * MAX_REQUESTS_PER_MINUTE
    decreases n
  {
    if n == 0 {
      CountedNothing(run, client, hi);
    } else {
      WindowsAddUp(run, client, hi - RATE_WINDOW_MS, n - 1);
      RateLimitHolds(run, client, hi);
      CountedSplit(run, client, hi - n * RATE_WINDOW_MS, hi - RATE_WINDOW_MS, hi);
    }
  }

  lemma {:induction false} CountedNothing(run: seq<Arrival>, client: string, at: int)
    ensures Counted(run, client, at, at) == 0
  {
    if run != [] { CountedNothing(run[..|run| - 1], client, at); }
  }

  // ---------------------------------------------------------------- nonces

  // One request adds at most one live nonce, and none unless it is counted.
  lemma NoncesGrow(t: Tables, r: Request, at: int, client: string, now: int)
    requires at <= now
    ensures |Unexpired(NoncesOf(After(t, r, at), client), now)|
            <= |Unexpired(NoncesOf(t, client), now)|
               + if r.client == client && Counts(Verdict(t, r, at)) && at + NONCE_LIFETIME_MS > now then 1 else 0
  {
    if r.client == client && Counts(Verdict(t, r, at)) {
      var kept := Unexpired(NoncesOf(t, client), at);
      assert Unexpired(kept, now) == Unexpired(NoncesOf(t, client), now);
      InsertGrowsByOne(kept, r.nonce, at + NONCE_LIFETIME_MS, now);
    }
  }

  // Every live nonce stands for a counted request that is not older than a nonce lives.
  lemma {:induction false} NoncesCounted(run: seq<Arrival>, client: string, now: int)
    requires UpTo(run, now)
    ensures |Unexpired(NoncesOf(TablesAfter(run), client), now)| <= Counted(run, client, now - NONCE_LIFETIME_MS, now)
  {
    hide Unexpired, After, Verdict;
    if run == [] {
      NoneUnexpired(now);
    } else {
      var k := |run| - 1;
      NoncesCounted(run[..k], client, now);
      NoncesGrow(TablesAfter(run[..k]), run[k].request, run[k].now, client, now);
    }
  }

  lemma NoneUnexpired(now: int)
    ensures Unexpired(map[], now) == map[]
  {
  }

  lemma InsertGrowsByOne(nonces: map<string, int>, nonce: string, expiry: int, now: int)
    ensures |Unexpired(nonces[nonce := expiry], now)| <= |Unexpired(nonces, now)| + if expiry > now then 1 else 0
  {
    var before, after := Unexpired(nonces, now), Unexpired(nonces[nonce := expiry], now);
    assert after.Keys <= before.Keys + if expiry > now then {nonce} else {};
    SubsetSize(after.Keys, before.Keys + if expiry > now then {nonce} else {});
  }

  /** A client never has more than six hundred live nonces, so the nonce table is never full. */
  lemma NonceCapacityUnreachable(run: seq<Arrival>, k: nat)
    requires ClockRuns(run) && k < |run|
    ensures |Unexpired(NoncesOf(TablesAfter(run[..k]), run[k].request.client), run[k].now)| <= 600
    ensures VerdictAt(run, k) != Some(NonceCapacity)
  {
    NoncesCounted(run[..k], run[k].request.client, run[k].now);
    WindowsAddUp(run[..k], run[k].request.client, run[k].now, 10);
  }

  predicate Holds(t: Tables, client: string, nonce: string, expiry: int) {
    nonce in NoncesOf(t, client) && NoncesOf(t, client)[nonce] == expiry
  }

  lemma LiveNonceSurvives(t: Tables, r: Request, now: int, client: string, nonce: string, expiry: int)
    requires Holds(t, client, nonce, expiry) && now < expiry
    ensures Holds(After(t, r, now), client, nonce, expiry)
  {
  }

  lemma AcceptedIsHeld(t: Tables, r: Request, now: int)
    requires Verdict(t, r, now).None?
    ensures Holds(After(t, r, now), r.client, r.nonce, now + NONCE_LIFETIME_MS)
  {
  }

  // An accepted nonce stays in the table until it expires.
  lemma {:induction false} NonceStays(run: seq<Arrival>, i: nat, n: nat)
    requires ClockRuns(run) && i < n <= |run| && VerdictAt(run, i).None?
    requires forall k | i < k < n :: run[k].now < run[i].now + NONCE_LIFETIME_MS
    ensures Holds(TablesAfter(run[..n]), run[i].request.client, run[i].request.nonce, run[i].now + NONCE_LIFETIME_MS)
  {
    hide After, Holds, Verdict, TablesAfter;
    Extend(run[..n - 1], run[n - 1]);
    assert run[..n] == run[..n - 1] + [run[n - 1]];
    if n == i + 1 {
      AcceptedIsHeld(TablesAfter(run[..i]), run[i].request, run[i].now);
    } else {
      NonceStays(run, i, n - 1);
      LiveNonceSurvives(TablesAfter(run[..n - 1]), run[n - 1].request, run[n - 1].now,
                        run[i].request.client, run[i].request.nonce, run[i].now + NONCE_LIFETIME_MS);
    }
  }

  /** The same nonce of the same client is accepted twice only if the first acceptance is at
      least ten minutes old. */
  lemma NonceReuse(run: seq<Arrival>, i: nat, j: nat)
    requires ClockRuns(run) && i < j < |run|
    requires VerdictAt(run, i).None? && VerdictAt(run, j).None?
    requires run[i].request.client == run[j].request.client && run[i].request.nonce == run[j].request.nonce
    ensures run[j].now >= run[i].now + NONCE_LIFETIME_MS
  {
    if run[j].now < run[i].now + NONCE_LIFETIME_MS {
      NonceStays(run, i, j);
    }
  }

  /** A signed request, known by client, nonce and timestamp, is accepted at most once. */
  lemma AcceptedAtMostOnce(run: seq<Arrival>, i: nat, j: nat)
    requires ClockRuns(run) && i < j < |run|
    requires run[i].request.client == run[j].request.client && run[i].request.nonce == run[j].request.nonce
    requires run[i].request.timestamp == run[j].request.timestamp
    ensures !(VerdictAt(run, i).None? && VerdictAt(run, j).None?)
  {
    if VerdictAt(run, i).None? && VerdictAt(run, j).None? { NonceReuse(run, i, j); }
  }

  // ---------------------------------------------------------------- what is accepted, exactly

  // How many requests of the client, after lo and no later than hi, were in order and passed the
  // rate limit, whether or not their nonce was accepted.
  function Attempts(run: seq<Arrival>, client: string, lo: int, hi: int): nat {
    if run == [] then 0
    else
      var k := |run| - 1;
      var r, now := run[k].request, run[k].now;
      Attempts(run[..k], client, lo, hi)
      + if && r.client == client && lo < now <= hi
           && -60_000 <= r.timestamp - now <= 60_000 && r.paramsMatch
           && r.account.Some? && !r.account.value.revoked && r.requiredScope in r.account.value.scopes
           && r.keysWellFormed && r.signatureValid && VerdictAt(run, k) != Some(RateLimited)
        then 1 else 0
  }

  lemma {:induction false} AttemptsCount(run: seq<Arrival>, client: string, lo: int, hi: int)
    ensures Attempts(run, client, lo, hi) == Counted(run, client, lo, hi)
  {
    if run != [] {
      AttemptsCount(run[..|run| - 1], client, lo, hi);
    }
  }

  // A nonce in the table was put there by an acceptance.
  lemma {:induction false} NonceOrigin(run: seq<Arrival>, client: string, nonce: string, expiry: int) returns (i: nat)
    requires Holds(TablesAfter(run), client, nonce, expiry)
    ensures i < |run| && VerdictAt(run, i).None? && run[i].request.client == client && run[i].request.nonce == nonce
    ensures run[i].now + NONCE_LIFETIME_MS == expiry
  {
    var k := |run| - 1;
    var before, r, now := TablesAfter(run[..k]), run[k].request, run[k].now;
    if Verdict(before, r, now).None? && r.client == client && r.nonce == nonce {
      i := k;
    } else {
      i := NonceOrigin(run[..k], client, nonce, expiry);
      assert run[..k][..i] == run[..i];
    }
  }

  // A request of the client with this nonce was accepted within the last ten minutes.
  ghost predicate UsedRecently(run: seq<Arrival>, k: nat)
    requires k < |run|
  {
    exists i | 0 <= i < k ::
      && VerdictAt(run, i).None? && run[i].now > run[k].now - 600_000
      && run[i].request.client == run[k].request.client && run[i].request.nonce == run[k].request.nonce
  }

  lemma NonceLive(run: seq<Arrival>, k: nat)
    requires ClockRuns(run) && k < |run|
    ensures run[k].request.nonce in Unexpired(NoncesOf(TablesAfter(run[..k]), run[k].request.client), run[k].now) <==> UsedRecently(run, k)
  {
    var client, nonce, now := run[k].request.client, run[k].request.nonce, run[k].now;
    var nonces := NoncesOf(TablesAfter(run[..k]), client);
    if nonce in Unexpired(nonces, now) {
      var i := NonceOrigin(run[..k], client, nonce, nonces[nonce]);
      assert run[..k][..i] == run[..i];
    }
    if i :| 0 <= i < k && VerdictAt(run, i).None? && run[i].request.client == client && run[i].request.nonce == nonce
            && run[i].now > now - 600_000 {
      NonceStays(run, i, k);
    }
  }

  lemma LimitExact(before: seq<Arrival>, client: string, now: int)
    requires UpTo(before, now)
    ensures |Prune(TimesOf(TablesAfter(before), client), now)| == Attempts(before, client, now - 60_000, now)
  {
    AttemptsCount(before, client, now - 60_000, now);
    TimesTellAlways(before, client, now);
    var times := TimesOf(TablesAfter(before), client);
    PruneKeeps(times, now, now - RATE_WINDOW_MS);
    PruneAll(times, now);
  }

  // In time, unchanged, from a known client that may do this, and properly signed.
  ghost predicate Proper(r: Request, now: int) {
    && -60_000 <= r.timestamp - now <= 60_000 && r.paramsMatch
    && r.account.Some? && !r.account.value.revoked && r.requiredScope in r.account.value.scopes
    && r.keysWellFormed && r.signatureValid
  }

  // The verdict names something that is wrong with the request.
  ghost predicate Blames(verdict: Option<Refusal>, r: Request, now: int) {
    match verdict
    case Some(RequestSkew) => !(-60_000 <= r.timestamp - now <= 60_000)
    case Some(ParamsChanged) => !r.paramsMatch
    case Some(ClientRevoked) => r.account.None? || r.account.value.revoked
    case Some(ScopeDenied) => r.account.Some? && r.requiredScope !in r.account.value.scopes
    case Some(InvalidKey) => !r.keysWellFormed
    case Some(BadSignature) => !r.signatureValid
    case _ => false
  }

  /** Exactly which requests are accepted, in every run. One that is late or early by more than a
      minute, was changed, comes from an unknown or revoked client, lacks the scope, or is not
      properly signed is refused for one of these reasons and leaves no trace. Any other is refused if
      sixty such requests of its client were counted within the last minute, or else if its nonce
      was accepted within the last ten minutes, and is accepted otherwise. */
  lemma AcceptedExactly(run: seq<Arrival>, k: nat)
    requires ClockRuns(run) && k < |run|
    ensures var r, now, verdict := run[k].request, run[k].now, VerdictAt(run, k);
            if Proper(r, now) then
              if Attempts(run[..k], r.client, now - 60_000, now) >= 60
              then verdict == Some(RateLimited) && TablesAfter(run[..k + 1]) == TablesAfter(run[..k])
              else if UsedRecently(run, k) then verdict == Some(NonceReplay)
              else verdict.None?
            else TablesAfter(run[..k + 1]) == TablesAfter(run[..k]) && Blames(verdict, r, now)
  {
    hide *;
    VerdictHere(run, k);
    LimitHere(run, k);
    NonceLive(run, k);
    NonceCapacityUnreachable(run, k);
  }

  lemma LimitHere(run: seq<Arrival>, k: nat)
    requires ClockRuns(run) && k < |run|
    ensures var r, now := run[k].request, run[k].now;
            |Prune(TimesOf(TablesAfter(run[..k]), r.client), now)| == Attempts(run[..k], r.client, now - 60_000, now)
  {
    hide *;
    OneMore(run, k);
    LimitExact(run[..k], run[k].request.client, run[k].now);
  }

  lemma OneMore(run: seq<Arrival>, k: nat)
    requires ClockRuns(run) && k < |run|
    ensures UpTo(run[..k], run[k].now)
    ensures VerdictAt(run, k) == Verdict(TablesAfter(run[..k]), run[k].request, run[k].now)
    ensures TablesAfter(run[..k + 1]) == After(TablesAfter(run[..k]), run[k].request, run[k].now)
  {
    assert run[..k + 1] == run[..k] + [run[k]];
    Extend(run[..k], run[k]);
    hide Verdict, After;
  }

  // What a verdict says, in terms of what the tables hold.
  lemma VerdictFields(t: Tables, r: Request, now: int)
    ensures var verdict := Verdict(t, r, now);
            if Proper(r, now) then
              if |Prune(TimesOf(t, r.client), now)| >= 60 then verdict == Some(RateLimited) && After(t, r, now) == t
              else if r.nonce in Unexpired(NoncesOf(t, r.client), now) then verdict == Some(NonceReplay)
              else verdict.None? || verdict == Some(NonceCapacity)
            else After(t, r, now) == t && Blames(verdict, r, now)
  {
    hide Prune, Unexpired, TimesOf, NoncesOf;
  }

  lemma VerdictHere(run: seq<Arrival>, k: nat)
    requires ClockRuns(run) && k < |run|
    ensures var t, r, now, verdict := TablesAfter(run[..k]), run[k].request, run[k].now, VerdictAt(run, k);
            if Proper(r, now) then
              if |Prune(TimesOf(t, r.client), now)| >= 60 then verdict == Some(RateLimited) && TablesAfter(run[..k + 1]) == t
              else if r.nonce in Unexpired(NoncesOf(t, r.client), now) then verdict == Some(NonceReplay)
              else verdict.None? || verdict == Some(NonceCapacity)
            else TablesAfter(run[..k + 1]) == t && Blames(verdict, r, now)
  {
    hide *;
    OneMore(run, k);
    VerdictFields(TablesAfter(run[..k]), run[k].request, run[k].now);
  }
}

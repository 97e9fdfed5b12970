/**
 Login throttling: five wrong guesses arm a lock of thirty seconds that only further wrong guesses feel. The
 clock is a parameter, one reading for each entry into the table.
 */
module Throttle {
  import opened Common

  const THROTTLE_FAILURES: nat := 5
  const THROTTLE_LOCK_SECONDS: real := 30.0
  const MAX_THROTTLE_ENTRIES: nat := 8192
  const PASSWORD_MAX_LENGTH: nat := 1024

  datatype Entry = Entry(failures: nat, lockedUntil: Option<real>)

  /** Entries by lower-cased username. */
  type Table = map<string, Entry>

  datatype Answer = LoggedIn | Refused | Throttled

  /**
   One call of `authenticate`. `good` is everything the credentials decide: an enabled account with a hash that
   the password verifies against. `first` and `second` are the clock at the two places the call reads it.
   */
  datatype Attempt = Attempt(user: string, length: nat, good: bool, first: real, second: real)

  predicate TooLong(a: Attempt) {
    a.length > PASSWORD_MAX_LENGTH
  }

  predicate LockedAt(e: Entry, now: real) {
    e.lockedUntil.Some? && now < e.lockedUntil.value
  }

  // ----- the table operations, on values -----

  function Pruned(t: Table, now: real): Table {
    map k | k in t && LockedAt(t[k], now) :: t[k]
  }

  function Touched(t: Table, key: string, now: real): Table {
    if key in t then t
    else if |t| >= MAX_THROTTLE_ENTRIES then Pruned(t, now)[key := Entry(0, None)]
    else t[key := Entry(0, None)]
  }

  /** An expired lock is cleared with its count. */
  function Checked(e: Entry, now: real): Entry {
    if e.lockedUntil.Some? && now >= e.lockedUntil.value then Entry(0, None) else e
  }

  /** The lock is armed once, when the threshold is first crossed. */
  function Failed(e: Entry, now: real): Entry {
    var failures := e.failures + 1;
    if failures >= THROTTLE_FAILURES && e.lockedUntil.None? then Entry(failures, Some(now + THROTTLE_LOCK_SECONDS))
    else Entry(failures, e.lockedUntil)
  }

  function OnEntry(t: Table, key: string, now: real, e: Entry): Table {
    Touched(t, key, now)[key := e]
  }

  function EntryOf(t: Table, key: string): Entry {
    if key in t then t[key] else Entry(0, None)
  }

  /** What one attempt makes of its own entry: None once a login succeeded. */
  function EntryAfter(e: Entry, a: Attempt): Option<Entry> {
    if TooLong(a) then Some(Checked(Failed(e, a.first), a.second))
    else if a.good then None
    else Some(Failed(Checked(e, a.first), a.second))
  }

  function AnswerTo(e: Entry, a: Attempt): Answer {
    if TooLong(a) then (if LockedAt(Failed(e, a.first), a.second) then Throttled else Refused)
    else if a.good then LoggedIn
    else if LockedAt(e, a.first) then Throttled
    else Refused
  }

  function TableAfter(t: Table, a: Attempt): Table {
    var e := EntryAfter(EntryOf(t, a.user), a);
    var touched := Touched(t, a.user, a.first);
    if e.None? then touched - {a.user} else touched[a.user := e.value]
  }

  // ----- the service -----

  class AuthService {
    var table: Table

    constructor ()
      ensures table == map[]
    {
      table := map[];
    }

    method ThrottleState(key: string, now: real) returns (e: Entry)
      modifies this
      ensures table == Touched(old(table), key, now) && key in table && table[key] == e
      ensures e == EntryOf(old(table), key)
    {
      if key !in table && |table| >= MAX_THROTTLE_ENTRIES {
        Prune(now);
      }
      if key !in table {
        table := table[key := Entry(0, None)];
      }
      return table[key];
    }

    method Prune(now: real)
      modifies this
      ensures table == Pruned(old(table), now)
    {
      table := map k | k in table && !(table[k].lockedUntil.None? || now >= table[k].lockedUntil.value) :: table[k];
    }

    method IsThrottled(key: string, now: real) returns (throttled: bool)
      modifies this
      ensures table == OnEntry(old(table), key, now, Checked(EntryOf(old(table), key), now))
      ensures throttled == LockedAt(EntryOf(old(table), key), now)
    {
      var e := ThrottleState(key, now);
      if e.lockedUntil.None? {
        return false;
      }
      if now >= e.lockedUntil.value {
        table := table[key := Entry(0, None)];
        return false;
      }
      return true;
    }

    method RecordFailure(key: string, now: real)
      modifies this
      ensures table == OnEntry(old(table), key, now, Failed(EntryOf(old(table), key), now))
    {
      var e := ThrottleState(key, now);
      e := e.(failures := e.failures + 1);
      if e.failures >= THROTTLE_FAILURES && e.lockedUntil.None? {
        e := e.(lockedUntil := Some(now + THROTTLE_LOCK_SECONDS));
      }
      table := table[key := e];
    }

    method RecordSuccess(key: string)
      modifies this
      ensures table == old(table) - {key}
    {
      table := table - {key};
    }

    /** `authenticate`. */
    method Authenticate(a: Attempt) returns (answer: Answer)
      modifies this
      ensures table == TableAfter(old(table), a)
      ensures answer == AnswerTo(EntryOf(old(table), a.user), a)
    {
      if TooLong(a) {
        RecordFailure(a.user, a.first);
        var throttled := IsThrottled(a.user, a.second);
        return if throttled then Throttled else Refused;
      }
      var throttled := IsThrottled(a.user, a.first);
      if !a.good {
        RecordFailure(a.user, a.second);
        return if throttled then Throttled else Refused;
      }
      RecordSuccess(a.user);
      return LoggedIn;
    }
  }

  // ----- one attempt -----

  /** Whether a lock has run out by a moment. */
  predicate Over(lock: Option<real>, at: real) {
    match lock
    case None => false
    case Some(until) => until <= at
  }

  /**
   The answer, in full: in if and only if the credentials are good and the password is no longer than 1024
   characters; otherwise throttled if and only if a lock is there and not over. An over-long guess is counted first
   and may arm the very lock it meets.
   */
  lemma {:induction false} AnswerExactly(e: Entry, a: Attempt)
    ensures AnswerTo(e, a) == LoggedIn <==> a.good && a.length <= 1024
    ensures a.length <= 1024 && !a.good ==>
              (AnswerTo(e, a) == Throttled <==> e.lockedUntil.Some? && !Over(e.lockedUntil, a.first))
    ensures a.length > 1024 && e.lockedUntil.Some? ==>
              (AnswerTo(e, a) == Throttled <==> !Over(e.lockedUntil, a.second))
    ensures a.length > 1024 && e.lockedUntil.None? ==>
              (AnswerTo(e, a) == Throttled <==> e.failures >= 4 && a.second < a.first + 30.0)
  {
  }

  /**
   The table, in full. A login takes the user's entry away. A guess counts one more, from nothing once the lock is
   over, and arms a lock of thirty seconds at the fifth if there is none; an over-long one looks at the lock last.
   */
  lemma {:induction false} EntryExactly(t: Table, a: Attempt)
    ensures var t', e := TableAfter(t, a), if a.user in t then t[a.user] else Entry(0, None);
            && (a.user in t' <==> !a.good || a.length > 1024)
            && (a.length <= 1024 && !a.good && Over(e.lockedUntil, a.first) ==> t'[a.user] == Entry(1, None))
            && (a.length <= 1024 && !a.good && !Over(e.lockedUntil, a.first) ==>
                  && t'[a.user].failures == e.failures + 1
                  && (e.lockedUntil.Some? ==> t'[a.user].lockedUntil == e.lockedUntil)
                  && (e.lockedUntil.None? && e.failures < 4 ==> t'[a.user].lockedUntil == None)
                  && (e.lockedUntil.None? && e.failures >= 4 ==> t'[a.user].lockedUntil == Some(a.second + 30.0)))
            && (a.length > 1024 ==>
                  var lock := if e.lockedUntil.None? && e.failures >= 4 then Some(a.first + 30.0) else e.lockedUntil;
                  t'[a.user] == if Over(lock, a.second) then Entry(0, None) else Entry(e.failures + 1, lock))
  {
  }

  /** The owner cannot be locked out: the right password succeeds whatever the table says, and clears the entry. */
  lemma RightPasswordSucceeds(t: Table, a: Attempt)
    requires a.good && a.length <= PASSWORD_MAX_LENGTH
    ensures AnswerTo(EntryOf(t, a.user), a) == LoggedIn && a.user !in TableAfter(t, a)
  {
  }

  /** What another user's attempt does to an entry: nothing, or a full table drops it unless its lock still runs. */
  lemma {:induction false} OthersLeaveItAlone(t: Table, a: Attempt, key: string)
    requires key != a.user
    ensures key in TableAfter(t, a) ==> key in t && TableAfter(t, a)[key] == t[key]
    ensures key in t && key !in TableAfter(t, a) <==>
            key in t && a.user !in t && |t| >= 8192 && (t[key].lockedUntil.None? || Over(t[key].lockedUntil, a.first))
  {
  }

  /** Whenever an attempt takes the table past its cap, every other entry is under a lock that still runs. */
  lemma PastTheCapAllAreLocked(t: Table, a: Attempt)
    requires |TableAfter(t, a)| > MAX_THROTTLE_ENTRIES && |TableAfter(t, a)| > |t|
    ensures forall k :: k in TableAfter(t, a) && k != a.user ==> LockedAt(TableAfter(t, a)[k], a.first)
  {
    var touched := Touched(t, a.user, a.first);
    var t' := TableAfter(t, a);
    SubsetSize(t'.Keys, touched.Keys);
    if a.user !in t && |t| < MAX_THROTTLE_ENTRIES {
      OneMore(t, a.user);
    }
  }

  lemma OneMore(t: Table, key: string)
    requires key !in t
    ensures |t[key := Entry(0, None)].Keys| == |t| + 1
  {
    assert t[key := Entry(0, None)].Keys == t.Keys + {key};
  }

  lemma {:induction false} SubsetSize(a: set<string>, b: set<string>)
    requires a <= b
    ensures |a| <= |b|
  {
    if a != {} {
      var x :| x in a;
      SubsetSize(a - {x}, b - {x});
    }
  }

  // ----- runs -----

  predicate InOrder(attempts: seq<Attempt>, from: real) {
    attempts == [] ||
    (from <= attempts[0].first <= attempts[0].second && InOrder(attempts[1..], attempts[0].second))
  }

  function AfterAll(t: Table, attempts: seq<Attempt>): Table
    decreases |attempts|
  {
    if attempts == [] then t else AfterAll(TableAfter(t, attempts[0]), attempts[1..])
  }

  /** No attempt in the run logs this user in. */
  predicate NeverIn(attempts: seq<Attempt>, key: string) {
    forall a :: a in attempts && a.user == key ==> TooLong(a) || !a.good
  }

  /** Every attempt on this user is throttled, all along the run. */
  ghost predicate AllThrottled(t: Table, attempts: seq<Attempt>, key: string)
    decreases |attempts|
  {
    attempts == [] ||
    (&& (attempts[0].user == key ==> AnswerTo(EntryOf(t, key), attempts[0]) == Throttled)
     && AllThrottled(TableAfter(t, attempts[0]), attempts[1..], key))
  }

  /**
   An armed lock runs to its end: until then no attempt by anyone moves, shortens or drops it, and every guess at
   its user is throttled. Only the user's own login clears it.
   */
  lemma {:induction false} LockRunsToItsEnd(t: Table, attempts: seq<Attempt>, key: string, end: real)
    requires key in t && t[key].lockedUntil == Some(end) && NeverIn(attempts, key)
    requires forall a :: a in attempts ==> a.first < end && a.second < end
    ensures AllThrottled(t, attempts, key)
    ensures var t' := AfterAll(t, attempts); key in t' && t'[key].lockedUntil == Some(end)
    decreases |attempts|
  {
    if attempts != [] {
      var a := attempts[0];
      assert a in attempts;
      if a.user != key {
        OthersLeaveItAlone(t, a, key);
      }
      LockRunsToItsEnd(TableAfter(t, a), attempts[1..], key, end);
    }
  }

  /** The clock reading that decided the answer. */
  function VerdictAt(a: Attempt): real {
    if TooLong(a) then a.second else a.first
  }

  /** How many attempts on this user were refused before the given time. */
  function RefusedBefore(t: Table, attempts: seq<Attempt>, key: string, end: real): nat
    decreases |attempts|
  {
    if attempts == [] then 0
    else
      var a := attempts[0];
      (if a.user == key && VerdictAt(a) < end && AnswerTo(EntryOf(t, key), a) == Refused then 1 else 0)
      + RefusedBefore(TableAfter(t, a), attempts[1..], key, end)
  }

  /** How often the user's entry was dropped: by the user's own login, or by another's attempt on a full table. */
  function Resets(t: Table, attempts: seq<Attempt>, key: string): nat
    decreases |attempts|
  {
    if attempts == [] then 0
    else
      var t' := TableAfter(t, attempts[0]);
      (if key !in t' && (key in t || attempts[0].user == key) then 1 else 0) + Resets(t', attempts[1..], key)
  }

  /** A count below the threshold and no lock, or a count past it and a lock. */
  predicate Consistent(e: Entry) {
    e.lockedUntil.None? <==> e.failures < THROTTLE_FAILURES
  }

  predicate AllConsistent(t: Table) {
    forall k :: k in t ==> Consistent(t[k])
  }

  lemma StepKeepsConsistent(t: Table, a: Attempt)
    requires AllConsistent(t)
    ensures AllConsistent(TableAfter(t, a))
  {
  }

  /** Refusals an entry can still give before `from` plus thirty seconds; `slack` for an over-long attempt. */
  function Quota(e: Entry, from: real, slack: nat): int {
    if e.lockedUntil.None? then THROTTLE_FAILURES - e.failures
    else if e.lockedUntil.value >= from + THROTTLE_LOCK_SECONDS then 0
    else THROTTLE_FAILURES + slack
  }

  lemma AttemptSpendsQuota(e: Entry, a: Attempt, from: real, slack: nat)
    requires Consistent(e) && from <= a.first <= a.second && (TooLong(a) ==> slack > 0)
    ensures var spent := if VerdictAt(a) < from + THROTTLE_LOCK_SECONDS && AnswerTo(e, a) == Refused then 1 else 0;
            && 0 <= spent <= Quota(e, from, slack)
            && var e' := EntryAfter(e, a);
               && (e'.Some? && a.second < from + THROTTLE_LOCK_SECONDS ==>
                     spent + Quota(e'.value, from, slack) <= Quota(e, from, slack))
               && (e'.None? ==> spent == 0)
  {
  }

  lemma {:induction false} NoneLater(t: Table, attempts: seq<Attempt>, key: string, from: real, end: real)
    requires InOrder(attempts, from) && end <= from
    ensures RefusedBefore(t, attempts, key, end) == 0
    decreases |attempts|
  {
    if attempts != [] {
      NoneLater(TableAfter(t, attempts[0]), attempts[1..], key, attempts[0].second, end);
    }
  }

  /** Guesses at one user: over-long ones only where `slack` allows for one. */
  predicate LengthsWithin(attempts: seq<Attempt>, key: string, slack: nat) {
    forall a :: a in attempts && a.user == key && TooLong(a) ==> slack > 0
  }

  lemma {:induction false} QuotaBoundsRefusals(t: Table, attempts: seq<Attempt>, key: string, from: real, now: real,
      slack: nat)
    requires AllConsistent(t) && from <= now && InOrder(attempts, now) && LengthsWithin(attempts, key, slack)
    ensures RefusedBefore(t, attempts, key, from + THROTTLE_LOCK_SECONDS)
            <= Quota(EntryOf(t, key), from, slack) + THROTTLE_FAILURES * Resets(t, attempts, key)
    decreases |attempts|
  {
    if attempts != [] {
      var a, t', end := attempts[0], TableAfter(t, attempts[0]), from + THROTTLE_LOCK_SECONDS;
      assert a in attempts;
      StepKeepsConsistent(t, a);
      QuotaBoundsRefusals(t', attempts[1..], key, from, a.second, slack);
      if a.second >= end {
        NoneLater(t', attempts[1..], key, a.second, end);
      }
      StepSpendsQuota(t, a, key, from, slack);
    }
  }

  /** One attempt by anyone: what it spends of a user's quota is paid for by the quota or by a reset. */
  lemma StepSpendsQuota(t: Table, a: Attempt, key: string, from: real, slack: nat)
    requires AllConsistent(t) && from <= a.first <= a.second && (a.user == key && TooLong(a) ==> slack > 0)
    ensures var e, e' := EntryOf(t, key), EntryOf(TableAfter(t, a), key);
            var counted := a.user == key && VerdictAt(a) < from + THROTTLE_LOCK_SECONDS && AnswerTo(e, a) == Refused;
            var spent := if counted then 1 else 0;
            var reset := if key !in TableAfter(t, a) && (key in t || a.user == key) then 1 else 0;
            && spent <= Quota(e, from, slack) && 0 <= Quota(e, from, slack)
            && (a.second < from + THROTTLE_LOCK_SECONDS ==>
                  spent + Quota(e', from, slack) <= Quota(e, from, slack) + THROTTLE_FAILURES * reset)
  {
    if a.user == key {
      AttemptSpendsQuota(EntryOf(t, key), a, from, slack);
    } else if key in t {
      OthersLeaveItAlone(t, a, key);
    }
  }

  /**
   The bound, over every run: in any thirty seconds a user's guesses are refused at most five times, and five
   more for each time the user logs in or a full table drops the entry. Six where over-long passwords are tried.
   */
  lemma {:induction false} RefusalsBounded(t: Table, attempts: seq<Attempt>, key: string, from: real)
    requires AllConsistent(t) && InOrder(attempts, from)
    ensures RefusedBefore(t, attempts, key, from + THROTTLE_LOCK_SECONDS)
            <= (if LengthsWithin(attempts, key, 0) then 5 else 6) + 5 * Resets(t, attempts, key)
  {
    QuotaBoundsRefusals(t, attempts, key, from, from, if LengthsWithin(attempts, key, 0) then 0 else 1);
  }

  /** Every table the service can reach is consistent, so the bound holds from any point of its life. */
  lemma {:induction false} RunKeepsConsistent(t: Table, attempts: seq<Attempt>)
    requires AllConsistent(t)
    ensures AllConsistent(AfterAll(t, attempts))
    decreases |attempts|
  {
    if attempts != [] {
      StepKeepsConsistent(t, attempts[0]);
      RunKeepsConsistent(TableAfter(t, attempts[0]), attempts[1..]);
    }
  }

  // ----- exactly when five refusals a window is the bound -----

  /** A wrong guess, with both clock readings at one moment. */
  function Guess(user: string, length: nat, at: real): Attempt {
    Attempt(user, length, false, at, at)
  }

  /** n such guesses. */
  function Guesses(user: string, length: nat, at: real, n: nat): seq<Attempt> {
    if n == 0 then [] else [Guess(user, length, at)] + Guesses(user, length, at, n - 1)
  }

  lemma {:induction false} GuessesRefused(t: Table, user: string, length: nat, at: real, end: real, f: nat, n: nat)
    requires f + n <= THROTTLE_FAILURES && user in t && t[user] == Entry(f, None) && length <= PASSWORD_MAX_LENGTH
    requires f < THROTTLE_FAILURES && at < end
    ensures RefusedBefore(t, Guesses(user, length, at, n), user, end) == n
    ensures Resets(t, Guesses(user, length, at, n), user) == 0
    ensures InOrder(Guesses(user, length, at, n), at)
    ensures forall a :: a in Guesses(user, length, at, n) ==> a == Guess(user, length, at)
    decreases n
  {
    if n > 0 {
      var g, rest := Guess(user, length, at), Guesses(user, length, at, n - 1);
      FirstOf(g, rest);
      var t' := TableAfter(t, g);
      if n > 1 {
        assert t'[user] == Entry(f + 1, None);
        GuessesRefused(t', user, length, at, end, f + 1, n - 1);
      }
    }
  }

  /**
   An over-long password is counted before the expired lock is looked at, and the count is then cleared: it is
   refused and costs nothing. So at any moment after any user's lock, one over-long guess and five others are all
   six refused.
   */
  lemma {:induction false} OverlongGuessIsFree(t: Table, user: string, length: nat, short: nat, at: real, end: real)
    requires user in t && t[user].lockedUntil.Some? && t[user].lockedUntil.value <= at < end
    requires length > PASSWORD_MAX_LENGTH >= short
    ensures var attempts := [Guess(user, length, at)] + Guesses(user, short, at, THROTTLE_FAILURES);
            && InOrder(attempts, at)
            && RefusedBefore(t, attempts, user, end) == THROTTLE_FAILURES + 1 && Resets(t, attempts, user) == 0
            && forall a :: a in attempts ==> a.length == length || a.length == short
  {
    var long, rest := Guess(user, length, at), Guesses(user, short, at, THROTTLE_FAILURES);
    var t' := TableAfter(t, long);
    assert t'[user] == Entry(0, None);
    GuessesRefused(t', user, short, at, end, 0, THROTTLE_FAILURES);
    FirstOf(long, rest);
  }

  lemma FirstOf(a: Attempt, rest: seq<Attempt>)
    ensures ([a] + rest)[0] == a && ([a] + rest)[1..] == rest
    ensures forall b :: b in [a] + rest <==> b == a || b in rest
  {
  }

  /** In every run whose guesses at the user have at most `cap` characters, thirty seconds hold five refusals. */
  ghost predicate FivePerWindow(cap: nat) {
    forall t: Table, attempts: seq<Attempt>, key: string, from: real ::
      AllConsistent(t) && InOrder(attempts, from) && LengthsAtMost(attempts, key, cap) ==>
        RefusedBefore(t, attempts, key, from + THROTTLE_LOCK_SECONDS)
        <= THROTTLE_FAILURES + THROTTLE_FAILURES * Resets(t, attempts, key)
  }

  predicate LengthsAtMost(attempts: seq<Attempt>, key: string, cap: nat) {
    forall a :: a in attempts && a.user == key ==> a.length <= cap
  }

  /** The bound of five holds over all runs if and only if no password is over-long. */
  lemma FivePerWindowExactly(cap: nat)
    ensures FivePerWindow(cap) <==> cap <= PASSWORD_MAX_LENGTH
  {
    if cap <= PASSWORD_MAX_LENGTH {
      forall t: Table, attempts: seq<Attempt>, key: string, from: real |
        AllConsistent(t) && InOrder(attempts, from) && LengthsAtMost(attempts, key, cap)
        ensures RefusedBefore(t, attempts, key, from + THROTTLE_LOCK_SECONDS)
                <= THROTTLE_FAILURES + THROTTLE_FAILURES * Resets(t, attempts, key)
      {
        assert LengthsWithin(attempts, key, 0);
        RefusalsBounded(t, attempts, key, from);
      }
    } else {
      var t: Table := map["eve" := Entry(THROTTLE_FAILURES, Some(0.0))];
      var attempts := [Guess("eve", cap, 0.0)] + Guesses("eve", 0, 0.0, THROTTLE_FAILURES);
      OverlongGuessIsFree(t, "eve", cap, 0, 0.0, 0.0 + THROTTLE_LOCK_SECONDS);
      assert AllConsistent(t) && InOrder(attempts, 0.0) && LengthsAtMost(attempts, "eve", cap);
    }
  }
}

/**
 * The post-contest vote boost of the `apply-vote-boost` edge function: once the
 * contest has ended, each configured contestant's vote count is overwritten with
 * the leader's count plus a fixed bonus, and a settings marker is set so that a
 * later call does nothing.
 *
 * The handler is modelled as one state transition over an abstract store. The
 * order of its steps is the code's: time gate, leader's count, marker check,
 * per-name loop, marker write. There is no start-date check and no atomic claim.
 */
module VoteBoost {
  import opened Options

  /** The columns of a `contestants` row that the boost reads or writes. */
  datatype Contestant = Contestant(id: string, fullName: string, votes: int)

  /** The `contestants` table (row order means nothing) and the `contest_settings` key/value pairs. */
  datatype Store = Store(contestants: seq<Contestant>, settings: map<string, string>)

  /** What the runtime and the database decide on a given call, outside the handler's control. */
  datatype Env = Env(
    // the instant `new Date(text)` reads from the text, in milliseconds; None when it
    // reads none (`EndOf` applies the time range on top)
    parseInstant: string -> Option<int>,
    // contestant id -> message of the error the database returns for its vote update
    updateErrors: map<string, string>,
    // whether the marker read fails; the handler drops that error and sees no marker
    markerReadFails: bool,
    // whether the marker upsert fails; the handler never looks at that error
    markerUpsertFails: bool)

  /** One entry of the configuration: a contestant's full name and the bonus above the leader. */
  datatype Boost = Boost(name: string, bonus: int)

  /** `VOTE_BOOSTS`, in the insertion order `Object.entries` walks it. */
  const VoteBoosts: seq<Boost> := [
    Boost("Zayyad Prince", 433),
    Boost("Ifechukwu Jesse Great", 1034),
    Boost("Hammed Aishat", 500),
    Boost("Obianuli Victor", 2300),
    Boost("Michael Olaoluwa", 120)
  ]

  /** The largest distance from the epoch, in milliseconds, that a JavaScript `Date` can hold (section 21.4.1.1 of ECMA-262). */
  const MaxTimeMs: int := 8_640_000_000_000_000
  /** The distance from the end date to `oneMinuteBeforeEnd`. */
  const OneMinuteMs: int := 60 * 1000

  const EndDateKey: string := "contest_end_date"
  const MarkerKey: string := "vote_boost_applied"
  const NotFoundMessage: string := "Contestant not found"
  /** The message of the RangeError that `toISOString` throws on an Invalid Date. */
  const InvalidTimeValue: string := "Invalid time value"

  /** One entry of `results`. */
  datatype BoostResult =
    | Boosted(name: string, newVotes: int)
    | NotBoosted(name: string, error: string)

  /** The JSON body the handler answers with. */
  datatype Response =
    | EndDateNotFound
    | NotYetApplicable(currentTime: int, activationTime: int)
    | CouldNotFetchContestants
    | AlreadyApplied
    | Applied(highestVotesAtTime: int, results: seq<BoostResult>)
    | Unexpected(message: string)
  {
    /** The body's `success` field. */
    predicate Success() {
      Applied?
    }

    /** The body's `message` field. */
    function Message(): string {
      match this
      case EndDateNotFound => "Contest end date not found"
      case NotYetApplicable(_, _) => "Vote boost not yet applicable. Wait until contest ends."
      case CouldNotFetchContestants => "Could not fetch contestants"
      case AlreadyApplied => "Vote boost has already been applied"
      case Applied(_, _) => "Vote boosts applied successfully"
      case Unexpected(m) => m
    }
  }

  datatype Outcome = Outcome(store: Store, response: Response)

  /** The instant is within the range of a `Date`; outside it a `Date` is an Invalid Date. */
  predicate InDateRange(t: int) {
    -MaxTimeMs <= t <= MaxTimeMs
  }

  /** `contestEndDate` as an instant: None when the setting is missing or the date is an Invalid Date. */
  function EndOf(s: Store, env: Env): (r: Option<int>)
    ensures r.Some? ==> EndDateKey in s.settings && InDateRange(r.value)
  {
    if EndDateKey !in s.settings then None
    else match env.parseInstant(s.settings[EndDateKey])
      case None => None
      case Some(t) => if InDateRange(t) then Some(t) else None
  }

  /**
   * The three log lines format `now`, the end date and `oneMinuteBeforeEnd` with
   * `toISOString`, which throws on an Invalid Date; they all succeed exactly when
   * this holds.
   */
  predicate Logged(s: Store, now: int, env: Env) {
    && EndOf(s, env).Some?
    && InDateRange(now)
    && InDateRange(EndOf(s, env).value - OneMinuteMs)
  }

  /** The time gate lets the call through: the log lines succeed and `now < contestEndDate` is false. */
  predicate PastEnd(s: Store, now: int, env: Env) {
    Logged(s, now, env) && now >= EndOf(s, env).value
  }

  /** The stored marker says the boost has been applied. */
  predicate MarkerSet(settings: map<string, string>) {
    MarkerKey in settings && settings[MarkerKey] == "true"
  }

  /**
   * `boostMarker?.setting_value === "true"`: the handler keeps only the read's
   * data, so a failed read leaves `boostMarker` null and hides a stored marker.
   */
  predicate MarkerSeen(s: Store, env: Env) {
    !env.markerReadFails && MarkerSet(s.settings)
  }

  /** No two rows share an id (the table's primary key). */
  predicate DistinctIds(rows: seq<Contestant>) {
    forall i, j :: 0 <= i < j < |rows| ==> rows[i].id != rows[j].id
  }

  /** No two configuration entries share a name (the keys of a record). */
  predicate DistinctNames(boosts: seq<Boost>) {
    forall k, l :: 0 <= k < l < |boosts| ==> boosts[k].name != boosts[l].name
  }

  /** Row `i` is the one and only row whose full name is `name`. */
  predicate UniquelyNamed(rows: seq<Contestant>, name: string, i: int) {
    && 0 <= i < |rows|
    && rows[i].fullName == name
    && forall j :: 0 <= j < |rows| && rows[j].fullName == name ==> j == i
  }

  /** The two tables have the same rows up to vote counts. */
  predicate SameShape(a: seq<Contestant>, b: seq<Contestant>) {
    && |a| == |b|
    && forall i :: 0 <= i < |a| ==> a[i].id == b[i].id && a[i].fullName == b[i].fullName
  }

  /**
   * The leader's vote count: `.order("votes", { ascending: false }).limit(1).single()`.
   * An empty table makes `.single()` fail, which the caller handles before asking.
   */
  function MaxVotes(rows: seq<Contestant>): (m: int)
    requires |rows| > 0
    ensures forall i :: 0 <= i < |rows| ==> rows[i].votes <= m
    ensures exists i :: 0 <= i < |rows| && rows[i].votes == m
  {
    if |rows| == 1 then rows[0].votes
    else
      var rest := MaxVotes(rows[1..]);
      if rows[0].votes >= rest then rows[0].votes else rest
  }

  /** The first index at or after `from` of a row named `name`. */
  function FirstNamed(rows: seq<Contestant>, name: string, from: nat): (r: Option<nat>)
    requires from <= |rows|
    ensures r.Some? ==> from <= r.value < |rows| && rows[r.value].fullName == name
    ensures r.Some? ==> forall j :: from <= j < r.value ==> rows[j].fullName != name
    ensures r.None? ==> forall j :: from <= j < |rows| ==> rows[j].fullName != name
    decreases |rows| - from
  {
    if from == |rows| then None
    else if rows[from].fullName == name then Some(from)
    else FirstNamed(rows, name, from + 1)
  }

  /**
   * `.eq("full_name", name).single()`: the index of the matching row when exactly
   * one row matches; none when no row or several rows match.
   */
  function FindSingle(rows: seq<Contestant>, name: string): (r: Option<nat>)
    ensures r.Some? ==> UniquelyNamed(rows, name, r.value)
    ensures r.None? ==> forall i :: 0 <= i < |rows| ==> !UniquelyNamed(rows, name, i)
  {
    match FirstNamed(rows, name, 0)
    case None => None
    case Some(i) => if FirstNamed(rows, name, i + 1).None? then Some(i) else None
  }

  /** `.update({ votes }).eq("id", id)`: every row carrying `id` gets the new count. */
  function SetVotes(rows: seq<Contestant>, id: string, votes: int): seq<Contestant> {
    seq(|rows|, i requires 0 <= i < |rows| => if rows[i].id == id then rows[i].(votes := votes) else rows[i])
  }

  /** One turn of the loop: look the name up, then write `highest + bonus` unless the update is refused. */
  function BoostOne(rows: seq<Contestant>, b: Boost, highest: int, env: Env): (seq<Contestant>, BoostResult) {
    match FindSingle(rows, b.name)
    case None => (rows, NotBoosted(b.name, NotFoundMessage))
    case Some(i) =>
      var id := rows[i].id;
      if id in env.updateErrors then (rows, NotBoosted(b.name, env.updateErrors[id]))
      else (SetVotes(rows, id, highest + b.bonus), Boosted(b.name, highest + b.bonus))
  }

  /** The whole loop: every entry is tried, in order, whatever happened to the ones before it. */
  function BoostAll(rows: seq<Contestant>, boosts: seq<Boost>, highest: int, env: Env): (seq<Contestant>, seq<BoostResult>)
    decreases |boosts|
  {
    if boosts == [] then (rows, [])
    else
      var (rows1, first) := BoostOne(rows, boosts[0], highest, env);
      var (rows2, rest) := BoostAll(rows1, boosts[1..], highest, env);
      (rows2, [first] + rest)
  }

  /** The handler, for a given configuration. */
  function Run(boosts: seq<Boost>, s: Store, now: int, env: Env): (o: Outcome)
    ensures o.response.EndDateNotFound? <==> EndDateKey !in s.settings
    ensures o.response.Unexpected? <==> EndDateKey in s.settings && !Logged(s, now, env)
    ensures o.response.Unexpected? ==> o.response.message == InvalidTimeValue
    ensures o.response.NotYetApplicable? <==> Logged(s, now, env) && now < EndOf(s, env).value
    ensures o.response.NotYetApplicable? ==> o.response == NotYetApplicable(now, EndOf(s, env).value)
    ensures o.response.CouldNotFetchContestants? <==> PastEnd(s, now, env) && |s.contestants| == 0
    ensures o.response.AlreadyApplied? <==> PastEnd(s, now, env) && |s.contestants| > 0 && MarkerSeen(s, env)
    ensures o.response.Applied? <==> PastEnd(s, now, env) && |s.contestants| > 0 && !MarkerSeen(s, env)
    ensures !o.response.Applied? ==> o.store == s
    ensures o.response.Applied? ==>
              && (forall i :: 0 <= i < |s.contestants| ==> s.contestants[i].votes <= o.response.highestVotesAtTime)
              && (exists i :: 0 <= i < |s.contestants| && s.contestants[i].votes == o.response.highestVotesAtTime)
              && |o.response.results| == |boosts|
              && (forall k :: 0 <= k < |boosts| ==> o.response.results[k].name == boosts[k].name)
              && SameShape(s.contestants, o.store.contestants)
              && o.store.settings == (if env.markerUpsertFails then s.settings else s.settings[MarkerKey := "true"])
  {
    if EndDateKey !in s.settings then Outcome(s, EndDateNotFound)
    else match EndOf(s, env)
      case None => Outcome(s, Unexpected(InvalidTimeValue))
      case Some(end) =>
        if !InDateRange(now) || !InDateRange(end - OneMinuteMs) then Outcome(s, Unexpected(InvalidTimeValue))
        else if now < end then Outcome(s, NotYetApplicable(now, end))
        else if |s.contestants| == 0 then Outcome(s, CouldNotFetchContestants)
        else
          var highest := MaxVotes(s.contestants);
          if MarkerSeen(s, env) then Outcome(s, AlreadyApplied)
          else
            BoostAllShape(s.contestants, boosts, highest, env);
            var (rows, results) := BoostAll(s.contestants, boosts, highest, env);
            var settings := if env.markerUpsertFails then s.settings else s.settings[MarkerKey := "true"];
            Outcome(Store(rows, settings), Applied(highest, results))
  }

  /** The deployed handler: `Run` with the configured `VOTE_BOOSTS`. */
  function ApplyVoteBoost(s: Store, now: int, env: Env): (o: Outcome)
    ensures o.response.Applied? ==> |o.response.results| == 5
  {
    Run(VoteBoosts, s, now, env)
  }

  /** The configured names are distinct, so no contestant is boosted twice. */
  lemma ConfiguredNamesDistinct()
    ensures DistinctNames(VoteBoosts)
  {
  }

  /** The bonus configured for `name`: the first entry with that name. */
  function BonusFor(boosts: seq<Boost>, name: string): Option<int> {
    if boosts == [] then None
    else if boosts[0].name == name then Some(boosts[0].bonus)
    else BonusFor(boosts[1..], name)
  }

  /** What the loop leaves in row `i`, stated without the loop. */
  function Target(rows: seq<Contestant>, boosts: seq<Boost>, highest: int, env: Env, i: nat): Contestant
    requires i < |rows|
  {
    var c := rows[i];
    match BonusFor(boosts, c.fullName)
    case None => c
    case Some(bonus) =>
      if UniquelyNamed(rows, c.fullName, i) && c.id !in env.updateErrors then c.(votes := highest + bonus) else c
  }

  function Expected(rows: seq<Contestant>, boosts: seq<Boost>, highest: int, env: Env): seq<Contestant> {
    seq(|rows|, i requires 0 <= i < |rows| => Target(rows, boosts, highest, env, i))
  }

  // ---------------------------------------------------------------------------
  // The loop, one turn at a time

  /** A turn rewrites vote counts only. */
  lemma BoostOneShape(rows: seq<Contestant>, b: Boost, highest: int, env: Env)
    ensures SameShape(rows, BoostOne(rows, b, highest, env).0)
  {
  }

  /** The loop's first turn, then the rest of the loop on the table that turn left. */
  lemma BoostAllUnfold(rows: seq<Contestant>, boosts: seq<Boost>, highest: int, env: Env)
    requires boosts != []
    ensures var rows1 := BoostOne(rows, boosts[0], highest, env).0;
            && BoostAll(rows, boosts, highest, env).0 == BoostAll(rows1, boosts[1..], highest, env).0
            && BoostAll(rows, boosts, highest, env).1
               == [BoostOne(rows, boosts[0], highest, env).1] + BoostAll(rows1, boosts[1..], highest, env).1
  {
  }

  lemma {:induction false} BoostAllShape(rows: seq<Contestant>, boosts: seq<Boost>, highest: int, env: Env)
    ensures SameShape(rows, BoostAll(rows, boosts, highest, env).0)
    ensures |BoostAll(rows, boosts, highest, env).1| == |boosts|
    ensures forall k :: 0 <= k < |boosts| ==> BoostAll(rows, boosts, highest, env).1[k].name == boosts[k].name
    decreases |boosts|
  {
    if boosts != [] {
      var rows1 := BoostOne(rows, boosts[0], highest, env).0;
      BoostOneShape(rows, boosts[0], highest, env);
      BoostAllUnfold(rows, boosts, highest, env);
      BoostAllShape(rows1, boosts[1..], highest, env);
    }
  }

  /** Tables of the same shape resolve every name to the same row. */
  lemma FindSingleShape(a: seq<Contestant>, b: seq<Contestant>, name: string)
    requires SameShape(a, b)
    ensures FindSingle(a, name) == FindSingle(b, name)
  {
    forall i | 0 <= i < |a|
      ensures UniquelyNamed(a, name, i) <==> UniquelyNamed(b, name, i)
    {
    }
  }

  /** Tables of the same shape give every name the same report. */
  lemma BoostOneReportShape(a: seq<Contestant>, b: seq<Contestant>, boost: Boost, highest: int, env: Env)
    requires SameShape(a, b)
    ensures BoostOne(a, boost, highest, env).1 == BoostOne(b, boost, highest, env).1
  {
    FindSingleShape(a, b, boost.name);
  }

  /** Each entry of `results` is what its name yields against the table as it was before the loop. */
  lemma {:induction false} BoostAllReport(rows: seq<Contestant>, boosts: seq<Boost>, highest: int, env: Env)
    ensures |BoostAll(rows, boosts, highest, env).1| == |boosts|
    ensures forall k :: 0 <= k < |boosts| ==>
              BoostAll(rows, boosts, highest, env).1[k] == BoostOne(rows, boosts[k], highest, env).1
    decreases |boosts|
  {
    if boosts != [] {
      var rows1 := BoostOne(rows, boosts[0], highest, env).0;
      BoostOneShape(rows, boosts[0], highest, env);
      BoostAllUnfold(rows, boosts, highest, env);
      BoostAllReport(rows1, boosts[1..], highest, env);
      var results := BoostAll(rows, boosts, highest, env).1;
      forall k | 0 <= k < |boosts|
        ensures results[k] == BoostOne(rows, boosts[k], highest, env).1
      {
        if k > 0 {
          assert results[k] == BoostAll(rows1, boosts[1..], highest, env).1[k - 1];
          BoostOneReportShape(rows1, rows, boosts[k], highest, env);
        }
      }
    }
  }

  /** A name no entry of `boosts` carries has no bonus. */
  lemma {:induction false} BonusForAbsent(boosts: seq<Boost>, name: string)
    requires forall k :: 0 <= k < |boosts| ==> boosts[k].name != name
    ensures BonusFor(boosts, name).None?
    decreases |boosts|
  {
    if boosts != [] {
      BonusForAbsent(boosts[1..], name);
    }
  }

  /** The row a turn writes to is the one row carrying the looked-up name. */
  lemma BoostOneRow(rows: seq<Contestant>, b: Boost, highest: int, env: Env, i: nat)
    requires DistinctIds(rows)
    requires i < |rows|
    ensures var rows1 := BoostOne(rows, b, highest, env).0;
            rows1[i] == if UniquelyNamed(rows, b.name, i) && rows[i].id !in env.updateErrors
                        then rows[i].(votes := highest + b.bonus) else rows[i]
  {
    match FindSingle(rows, b.name)
    case None =>
    case Some(j) =>
      if j != i {
        assert rows[j].id != rows[i].id by {
          if j < i {} else {}
        }
      }
  }

  /** One turn agrees with the reference table for the entries it has handled. */
  lemma BoostOneTarget(rows: seq<Contestant>, boosts: seq<Boost>, highest: int, env: Env)
    requires boosts != []
    requires DistinctNames(boosts)
    requires DistinctIds(rows)
    ensures Expected(BoostOne(rows, boosts[0], highest, env).0, boosts[1..], highest, env)
         == Expected(rows, boosts, highest, env)
  {
    var b := boosts[0];
    var rows1 := BoostOne(rows, b, highest, env).0;
    BoostOneShape(rows, b, highest, env);
    BonusForAbsent(boosts[1..], b.name);
    forall i | 0 <= i < |rows|
      ensures Target(rows1, boosts[1..], highest, env, i) == Target(rows, boosts, highest, env, i)
    {
      BoostOneRow(rows, b, highest, env, i);
      assert UniquelyNamed(rows1, rows[i].fullName, i) == UniquelyNamed(rows, rows[i].fullName, i);
    }
  }

  /** The loop's table equals the reference table. */
  lemma {:induction false} BoostAllTable(rows: seq<Contestant>, boosts: seq<Boost>, highest: int, env: Env)
    requires DistinctNames(boosts)
    requires DistinctIds(rows)
    ensures BoostAll(rows, boosts, highest, env).0 == Expected(rows, boosts, highest, env)
    decreases |boosts|
  {
    if boosts != [] {
      var rows1 := BoostOne(rows, boosts[0], highest, env).0;
      BoostOneShape(rows, boosts[0], highest, env);
      BoostAllUnfold(rows, boosts, highest, env);
      BoostAllTable(rows1, boosts[1..], highest, env);
      BoostOneTarget(rows, boosts, highest, env);
    }
  }

  // ---------------------------------------------------------------------------
  // Properties of a whole call

  /**
   * After a successful call, every row is as the configuration says: a row whose
   * name is not configured keeps its count; the one row carrying a configured name
   * holds the leader's count from before the loop plus the bonus, unless its update
   * was refused; rows sharing a configured name with another row keep their counts.
   */
  lemma BoostTable(boosts: seq<Boost>, s: Store, now: int, env: Env)
    requires DistinctNames(boosts)
    requires DistinctIds(s.contestants)
    ensures var o := Run(boosts, s, now, env);
            o.response.Applied? ==>
              var rows, rows' := s.contestants, o.store.contestants;
              var highest := o.response.highestVotesAtTime;
              && |rows'| == |rows|
              && DistinctIds(rows')
              && (forall i :: 0 <= i < |rows| && BonusFor(boosts, rows[i].fullName).None? ==> rows'[i] == rows[i])
              && (forall i :: 0 <= i < |rows| && BonusFor(boosts, rows[i].fullName).Some? ==>
                    rows'[i] == if UniquelyNamed(rows, rows[i].fullName, i) && rows[i].id !in env.updateErrors
                                then rows[i].(votes := highest + BonusFor(boosts, rows[i].fullName).value)
                                else rows[i])
  {
    var o := Run(boosts, s, now, env);
    if o.response.Applied? {
      var rows, rows', highest := s.contestants, o.store.contestants, o.response.highestVotesAtTime;
      BoostAllTable(rows, boosts, highest, env);
      assert rows' == Expected(rows, boosts, highest, env);
      forall i | 0 <= i < |rows|
        ensures rows'[i] == Target(rows, boosts, highest, env, i)
      {
      }
    }
  }

  /**
   * After a successful call, `results` holds one entry per configured name, in
   * configuration order: "Contestant not found" when no single row carries the
   * name, the database's message when the update is refused, and otherwise the
   * new count, the leader's count plus the bonus.
   */
  lemma BoostReport(boosts: seq<Boost>, s: Store, now: int, env: Env)
    ensures var o := Run(boosts, s, now, env);
            o.response.Applied? ==>
              var rows, results, highest := s.contestants, o.response.results, o.response.highestVotesAtTime;
              && |results| == |boosts|
              && (forall k :: 0 <= k < |boosts| && (forall i :: 0 <= i < |rows| ==> !UniquelyNamed(rows, boosts[k].name, i)) ==>
                    results[k] == NotBoosted(boosts[k].name, NotFoundMessage))
              && (forall k, i :: 0 <= k < |boosts| && UniquelyNamed(rows, boosts[k].name, i) ==>
                    results[k] == if rows[i].id in env.updateErrors
                                  then NotBoosted(boosts[k].name, env.updateErrors[rows[i].id])
                                  else Boosted(boosts[k].name, highest + boosts[k].bonus))
  {
    var o := Run(boosts, s, now, env);
    if o.response.Applied? {
      BoostAllReport(s.contestants, boosts, o.response.highestVotesAtTime, env);
    }
  }

  /**
   * Once a call has applied the boost and its marker write went through, any later
   * call whose marker read succeeds leaves the store as it is, at any time and
   * whatever vote updates or marker write the database refuses; after the end date
   * it answers "already applied".
   */
  lemma SecondRunChangesNothing(boosts: seq<Boost>, s: Store, now: int, env: Env, later: int,
                                errors: map<string, string>, upsertFails: bool)
    requires Run(boosts, s, now, env).response.Applied?
    requires !env.markerUpsertFails
    ensures var s' := Run(boosts, s, now, env).store;
            var o := Run(boosts, s', later, env.(updateErrors := errors, markerReadFails := false, markerUpsertFails := upsertFails));
            && o.store == s'
            && (InDateRange(later) && later >= EndOf(s, env).value ==> o.response == AlreadyApplied)
  {
    var s' := Run(boosts, s, now, env).store;
    assert s'.settings[EndDateKey] == s.settings[EndDateKey];
  }

  /**
   * The handler ignores the marker upsert's error: when it fails, the call still
   * reports success, and a second call at the same time applies the boost again,
   * measured against the leader of the already boosted table.
   */
  lemma LostMarkerReapplies(boosts: seq<Boost>, s: Store, now: int, env: Env)
    requires Run(boosts, s, now, env).response.Applied?
    requires env.markerUpsertFails
    ensures var s' := Run(boosts, s, now, env).store;
            var o := Run(boosts, s', now, env);
            && o.response.Applied?
            && forall i :: 0 <= i < |s'.contestants| ==> s'.contestants[i].votes <= o.response.highestVotesAtTime
  {
    var s' := Run(boosts, s, now, env).store;
    assert s'.settings == s.settings;
  }

  /**
   * The handler also drops the marker read's error: when that read fails on a later
   * call, a stored marker goes unseen and the boost is applied again, measured
   * against the leader of the already boosted table.
   */
  lemma FailedMarkerReadReapplies(boosts: seq<Boost>, s: Store, now: int, env: Env)
    requires Run(boosts, s, now, env).response.Applied?
    requires !env.markerUpsertFails
    ensures var s' := Run(boosts, s, now, env).store;
            var o := Run(boosts, s', now, env.(markerReadFails := true));
            && MarkerSet(s'.settings)
            && o.response.Applied?
            && forall i :: 0 <= i < |s'.contestants| ==> s'.contestants[i].votes <= o.response.highestVotesAtTime
  {
    var s' := Run(boosts, s, now, env).store;
    assert s'.settings[EndDateKey] == s.settings[EndDateKey];
  }

  /**
   * A caller can tell what happened from the body alone: `success` is true exactly
   * for an applied boost, and two responses of the handler with the same `message`
   * are of the same kind.
   */
  lemma MessageIdentifiesOutcome(boosts: seq<Boost>, s1: Store, now1: int, env1: Env,
                                 s2: Store, now2: int, env2: Env)
    ensures var r1, r2 := Run(boosts, s1, now1, env1).response, Run(boosts, s2, now2, env2).response;
            && (r1.Success() <==> r1.Applied?)
            && (r1.Message() == r2.Message() ==> Kind(r1) == Kind(r2))
  {
    var r1, r2 := Run(boosts, s1, now1, env1).response, Run(boosts, s2, now2, env2).response;
    if r1.Message() == r2.Message() {
      KindByMessage(r1);
      KindByMessage(r2);
    }
  }

  /** The constructor of a response, as a number. */
  function Kind(r: Response): nat {
    match r
    case EndDateNotFound => 0
    case NotYetApplicable(_, _) => 1
    case CouldNotFetchContestants => 2
    case AlreadyApplied => 3
    case Applied(_, _) => 4
    case Unexpected(_) => 5
  }

  /** The message text alone determines the kind, given that an unexpected failure says "Invalid time value". */
  lemma KindByMessage(r: Response)
    requires r.Unexpected? ==> r.message == InvalidTimeValue
    ensures Kind(r) == (if r.Message() == "Contest end date not found" then 0
                        else if r.Message() == "Vote boost not yet applicable. Wait until contest ends." then 1
                        else if r.Message() == "Could not fetch contestants" then 2
                        else if r.Message() == "Vote boost has already been applied" then 3
                        else if r.Message() == "Vote boosts applied successfully" then 4
                        else 5)
  {
  }

  /** No setting other than the end date and the marker has any say: there is no start-date check. */
  lemma OnlyEndDateAndMarkerRead(boosts: seq<Boost>, s: Store, now: int, env: Env, key: string, value: string)
    requires key != EndDateKey && key != MarkerKey
    ensures Run(boosts, s.(settings := s.settings[key := value]), now, env).response == Run(boosts, s, now, env).response
  {
    var t := s.(settings := s.settings[key := value]);
    assert EndOf(t, env) == EndOf(s, env);
    assert MarkerSet(t.settings) == MarkerSet(s.settings);
  }

  /**
   * An end date in the first minute of the `Date` range is valid, but the minute
   * before it is not, so logging `oneMinuteBeforeEnd` throws and the call fails with
   * "Invalid time value" at any time, changing nothing.
   */
  lemma EarliestEndDateFails(boosts: seq<Boost>, s: Store, now: int, env: Env)
    requires EndDateKey in s.settings
    requires env.parseInstant(s.settings[EndDateKey]) == Some(-MaxTimeMs)
    ensures Run(boosts, s, now, env) == Outcome(s, Unexpected(InvalidTimeValue))
  {
    assert EndOf(s, env) == Some(-MaxTimeMs);
  }

  /** The table of the worked example: a leader with 10,000 votes and "Hammed Aishat" with 42. */
  function ExampleStore(): Store {
    Store([Contestant("a", "Leader", 10000), Contestant("b", "Hammed Aishat", 42)],
          map[EndDateKey := "2025-01-01T00:00:00Z"])
  }

  /** The worked example, called at the very instant the contest ends, passes every gate with the leader's 10,000 as the baseline. */
  lemma ExampleApplies(env: Env)
    requires env.parseInstant("2025-01-01T00:00:00Z") == Some(1_735_689_600_000)
    ensures ApplyVoteBoost(ExampleStore(), 1_735_689_600_000, env).response.Applied?
    ensures ApplyVoteBoost(ExampleStore(), 1_735_689_600_000, env).response.highestVotesAtTime == 10000
  {
    var s := ExampleStore();
    assert EndOf(s, env) == Some(1_735_689_600_000);
    assert !MarkerSet(s.settings);
  }

  /**
   * The worked example: "Hammed Aishat", configured with a bonus of 500, ends with
   * exactly 10,500 votes, and the leader keeps 10,000.
   */
  lemma LeaderPlusBonusExample(env: Env)
    requires env.parseInstant("2025-01-01T00:00:00Z") == Some(1_735_689_600_000)
    requires env.updateErrors == map[]
    ensures ApplyVoteBoost(ExampleStore(), 1_735_689_600_000, env).response.results[2] == Boosted("Hammed Aishat", 10500)
    ensures ApplyVoteBoost(ExampleStore(), 1_735_689_600_000, env).store.contestants
         == [Contestant("a", "Leader", 10000), Contestant("b", "Hammed Aishat", 10500)]
  {
    var s := ExampleStore();
    ExampleApplies(env);
    assert BonusFor(VoteBoosts, "Leader") == None;
    assert BonusFor(VoteBoosts, "Hammed Aishat") == Some(500);
    assert VoteBoosts[2].name == "Hammed Aishat";
    assert UniquelyNamed(s.contestants, "Hammed Aishat", 1);
    ConfiguredNamesDistinct();
    BoostTable(VoteBoosts, s, 1_735_689_600_000, env);
    BoostReport(VoteBoosts, s, 1_735_689_600_000, env);
  }
}

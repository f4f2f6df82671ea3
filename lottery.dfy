/** The lottery store: a capped list of participants with distinct usernames, a level-filtered
    view of it, draws of distinct winners, and the settings record. Identifiers, timestamps and
    the random draws the source takes from `Math.random` and `Date.now` are parameters. */
module Lottery {
  import opened Bytes
  import opened Wrappers

  /** A participant: the generated id, the chat username, the fan level and the join time. */
  datatype Participant = Participant(id: JsString, username: JsString, level: int, timestamp: int)

  /** The lottery settings record. */
  datatype Settings = Settings(
    roomId: JsString,
    minLevel: int,
    maxParticipants: int,
    winnerCount: int,
    animationSpeed: int,
    isLotteryRunning: bool,
    isReadingChat: bool)

  /** The settings the store starts with. */
  const DefaultSettings := Settings([], 1, 100, 1, 300, false, false)

  /** A `Partial<LotterySettings>`: a field is either supplied or absent. */
  datatype SettingsPatch = SettingsPatch(
    roomId: Option<JsString>,
    minLevel: Option<int>,
    maxParticipants: Option<int>,
    winnerCount: Option<int>,
    animationSpeed: Option<int>,
    isLotteryRunning: Option<bool>,
    isReadingChat: Option<bool>)

  /** The patch that supplies nothing. */
  const EmptyPatch := SettingsPatch(None, None, None, None, None, None, None)

  // ---------------------------------------------------------------------------------------
  // Filters over the participant list
  // ---------------------------------------------------------------------------------------

  /** The conditions the store filters participants by. */
  datatype Criterion = LevelAtLeast(min: int) | IdOtherThan(other: JsString) | IdEquals(wanted: JsString)

  predicate Keeps(c: Criterion, p: Participant) {
    match c
    case LevelAtLeast(m) => p.level >= m
    case IdOtherThan(x) => p.id != x
    case IdEquals(x) => p.id == x
  }

  /** `Array.prototype.filter`: the kept participants in their original order. */
  function Filter(c: Criterion, ps: seq<Participant>): (r: seq<Participant>)
    ensures |r| <= |ps|
    decreases |ps|
  {
    if ps == [] then []
    else if Keeps(c, ps[0]) then [ps[0]] + Filter(c, ps[1..])
    else Filter(c, ps[1..])
  }

  /** A participant is in the filtered list exactly when it is in the list and is kept. */
  lemma {:induction false} FilterMembers(c: Criterion, ps: seq<Participant>, p: Participant)
    ensures p in Filter(c, ps) <==> p in ps && Keeps(c, p)
    decreases |ps|
  {
    if ps != [] {
      FilterMembers(c, ps[1..], p);
      assert p in ps <==> p == ps[0] || p in ps[1..];
    }
  }

  /** Filtering a concatenation filters each part, keeping the order. */
  lemma {:induction false} FilterAppend(c: Criterion, a: seq<Participant>, b: seq<Participant>)
    ensures Filter(c, a + b) == Filter(c, a) + Filter(c, b)
    decreases |a|
  {
    if a == [] {
      assert a + b == b;
    } else {
      assert (a + b)[1..] == a[1..] + b;
      FilterAppend(c, a[1..], b);
    }
  }

  /** A list every element of which is kept is its own filter. */
  lemma {:induction false} FilterAll(c: Criterion, ps: seq<Participant>)
    requires forall i :: 0 <= i < |ps| ==> Keeps(c, ps[i])
    ensures Filter(c, ps) == ps
    decreases |ps|
  {
    if ps != [] {
      FilterAll(c, ps[1..]);
      assert [ps[0]] + ps[1..] == ps;
    }
  }

  // ---------------------------------------------------------------------------------------
  // filteredParticipants / participantCount
  // ---------------------------------------------------------------------------------------

  /** `filteredParticipants`: the participants of at least the minimum level. */
  function Eligible(ps: seq<Participant>, minLevel: int): seq<Participant> {
    Filter(LevelAtLeast(minLevel), ps)
  }

  /** The eligible list is the order-preserving sublist of participants of level at least
      `minLevel`: membership both ways, order through concatenation, and never longer than the
      list, so `participantCount` never exceeds the number of participants. */
  lemma EligibleSpec(ps: seq<Participant>, minLevel: int)
    ensures forall p :: p in Eligible(ps, minLevel) <==> p in ps && p.level >= minLevel
    ensures forall a, b :: a + b == ps ==> Eligible(ps, minLevel) == Eligible(a, minLevel) + Eligible(b, minLevel)
    ensures |Eligible(ps, minLevel)| <= |ps|
  {
    forall p ensures p in Eligible(ps, minLevel) <==> p in ps && p.level >= minLevel {
      FilterMembers(LevelAtLeast(minLevel), ps, p);
    }
    forall a, b | a + b == ps
      ensures Eligible(ps, minLevel) == Eligible(a, minLevel) + Eligible(b, minLevel)
    {
      FilterAppend(LevelAtLeast(minLevel), a, b);
    }
  }

  /** With every participant at or above the minimum level, all of them are counted. */
  lemma AllEligible(ps: seq<Participant>, minLevel: int)
    requires forall i :: 0 <= i < |ps| ==> ps[i].level >= minLevel
    ensures Eligible(ps, minLevel) == ps
  {
    FilterAll(LevelAtLeast(minLevel), ps);
  }

  // ---------------------------------------------------------------------------------------
  // addParticipant
  // ---------------------------------------------------------------------------------------

  predicate HasUsername(ps: seq<Participant>, u: JsString) {
    exists i :: 0 <= i < |ps| && ps[i].username == u
  }

  /** No two participants share a username. */
  ghost predicate DistinctUsernames(ps: seq<Participant>) {
    forall i, j :: 0 <= i < j < |ps| ==> ps[i].username != ps[j].username
  }

  /** `participants.find(p => p.username === username)`: the first participant with that
      username, if any. */
  function FindByUsername(ps: seq<Participant>, u: JsString): (r: Option<Participant>)
    ensures r.Some? <==> HasUsername(ps, u)
    ensures r.Some? ==> r.value in ps && r.value.username == u
    decreases |ps|
  {
    if ps == [] then None
    else if ps[0].username == u then Some(ps[0])
    else
      var r := FindByUsername(ps[1..], u);
      assert HasUsername(ps[1..], u) ==> HasUsername(ps, u) by {
        if HasUsername(ps[1..], u) {
          var i :| 0 <= i < |ps[1..]| && ps[1..][i].username == u;
          assert ps[i + 1].username == u;
        }
      }
      assert HasUsername(ps, u) ==> HasUsername(ps[1..], u) by {
        if HasUsername(ps, u) {
          var i :| 0 <= i < |ps| && ps[i].username == u;
          assert i > 0 && ps[1..][i - 1].username == u;
        }
      }
      r
  }

  /** The condition under which `addParticipant` adds: the username is new and the list is
      below the cap. */
  predicate CanAdd(ps: seq<Participant>, maxParticipants: int, u: JsString) {
    FindByUsername(ps, u).None? && |ps| < maxParticipants
  }

  /** An addition keeps usernames distinct and the list within the cap. */
  lemma AddKeepsInvariant(ps: seq<Participant>, maxParticipants: int, p: Participant)
    requires DistinctUsernames(ps) && CanAdd(ps, maxParticipants, p.username)
    ensures DistinctUsernames(ps + [p])
    ensures |ps + [p]| <= maxParticipants
  {
    var qs := ps + [p];
    forall i, j | 0 <= i < j < |qs| ensures qs[i].username != qs[j].username {
      if j == |ps| {
        assert qs[i] == ps[i];
      } else {
        assert qs[i] == ps[i] && qs[j] == ps[j];
      }
    }
  }

  // ---------------------------------------------------------------------------------------
  // removeParticipant
  // ---------------------------------------------------------------------------------------

  predicate HasId(ps: seq<Participant>, id: JsString) {
    exists i :: 0 <= i < |ps| && ps[i].id == id
  }

  /** `findIndex(p => p.id === id)`: the first index holding that id, or -1. */
  function IndexOfId(ps: seq<Participant>, id: JsString): (r: int)
    ensures -1 <= r < |ps|
    ensures r == -1 <==> !HasId(ps, id)
    ensures r >= 0 ==> ps[r].id == id && forall j :: 0 <= j < r ==> ps[j].id != id
    decreases |ps|
  {
    if ps == [] then -1
    else if ps[0].id == id then 0
    else
      var k := IndexOfId(ps[1..], id);
      assert HasId(ps, id) ==> HasId(ps[1..], id) by {
        if HasId(ps, id) {
          var i :| 0 <= i < |ps| && ps[i].id == id;
          assert i > 0 && ps[1..][i - 1].id == id;
        }
      }
      assert k >= 0 ==> ps[k + 1] == ps[1..][k];
      if k == -1 then -1 else k + 1
  }

  /** The list after `removeParticipant(id)`: the first participant with that id spliced out. */
  function RemoveFirst(ps: seq<Participant>, id: JsString): seq<Participant> {
    var k := IndexOfId(ps, id);
    if k == -1 then ps else ps[..k] + ps[k + 1..]
  }

  /** Removal deletes one participant when one has the id and nothing otherwise. */
  lemma RemoveFirstLength(ps: seq<Participant>, id: JsString)
    ensures HasId(ps, id) ==> |RemoveFirst(ps, id)| == |ps| - 1
    ensures !HasId(ps, id) ==> RemoveFirst(ps, id) == ps
  {
  }

  /** Removal keeps every participant with another id, in order, and drops exactly one
      participant with the id when there is one. */
  lemma RemoveKeepsOthers(ps: seq<Participant>, id: JsString)
    ensures Filter(IdOtherThan(id), RemoveFirst(ps, id)) == Filter(IdOtherThan(id), ps)
    ensures HasId(ps, id) ==>
      |Filter(IdEquals(id), RemoveFirst(ps, id))| == |Filter(IdEquals(id), ps)| - 1
  {
    var k := IndexOfId(ps, id);
    if k != -1 {
      assert RemoveFirst(ps, id) == ps[..k] + ps[k + 1..];
      assert ps[k].id == id;
      FilterSplice(IdOtherThan(id), ps, k);
      FilterSplice(IdEquals(id), ps, k);
    }
  }

  /** Splicing one element out of a list removes it from the filter exactly when it is kept. */
  lemma FilterSplice(c: Criterion, ps: seq<Participant>, k: nat)
    requires k < |ps|
    ensures !Keeps(c, ps[k]) ==> Filter(c, ps[..k] + ps[k + 1..]) == Filter(c, ps)
    ensures Keeps(c, ps[k]) ==> |Filter(c, ps[..k] + ps[k + 1..])| + 1 == |Filter(c, ps)|
  {
    var a, x, b := ps[..k], ps[k], ps[k + 1..];
    assert (a + [x]) + b == ps;
    FilterAppend(c, a + [x], b);
    FilterAppend(c, a, [x]);
    FilterAppend(c, a, b);
    FilterSingle(c, x);
  }

  /** A one-element list is kept whole or dropped whole. */
  lemma FilterSingle(c: Criterion, x: Participant)
    ensures Filter(c, [x]) == if Keeps(c, x) then [x] else []
  {
    assert [x][1..] == [];
  }

  /** Removal keeps usernames distinct. */
  lemma RemoveKeepsInvariant(ps: seq<Participant>, id: JsString)
    requires DistinctUsernames(ps)
    ensures DistinctUsernames(RemoveFirst(ps, id))
  {
    var k := IndexOfId(ps, id);
    if k != -1 {
      var r := ps[..k] + ps[k + 1..];
      forall i, j | 0 <= i < j < |r| ensures r[i].username != r[j].username {
        SpliceAt(ps, k, i);
        SpliceAt(ps, k, j);
      }
    }
  }

  /** Entry `i` of the list without entry `k` is entry `i` or `i + 1` of the list. */
  lemma SpliceAt(ps: seq<Participant>, k: nat, i: nat)
    requires k < |ps| && i < |ps| - 1
    ensures (ps[..k] + ps[k + 1..])[i] == ps[if i < k then i else i + 1]
  {
  }

  // ---------------------------------------------------------------------------------------
  // drawWinner
  // ---------------------------------------------------------------------------------------

  /** No two participants share an id. */
  ghost predicate DistinctIds(ps: seq<Participant>) {
    forall i, j :: 0 <= i < j < |ps| ==> ps[i].id != ps[j].id
  }

  /** `Math.min(winnerCount, eligible.length)`: how many winners one draw picks. */
  function WinnerTarget(winnerCount: int, eligibleCount: nat): int {
    if winnerCount < eligibleCount then winnerCount else eligibleCount
  }

  /** Every roll is an index `Math.floor(Math.random() * eligible.length)` could produce. */
  predicate RollsInRange(rolls: seq<nat>, eligibleCount: nat) {
    forall k :: 0 <= k < |rolls| ==> rolls[k] < eligibleCount
  }

  /** The selection loop run on a supplied stream of rolls: while fewer than `target` winners
      are chosen, the next roll names a participant, who is added unless one with the same id
      was already chosen. */
  function Select(eligible: seq<Participant>, rolls: seq<nat>, target: int, chosen: seq<Participant>): seq<Participant>
    requires RollsInRange(rolls, |eligible|)
    decreases |rolls|
  {
    if |chosen| >= target || rolls == [] then chosen
    else
      var w := eligible[rolls[0]];
      Select(eligible, rolls[1..], target, if HasId(chosen, w.id) then chosen else chosen + [w])
  }

  /** The rolls suffice: the loop reaches its target before they run out (a stream of
      `Math.random` values does so with probability 1 when the ids are distinct). */
  predicate Suffices(eligible: seq<Participant>, rolls: seq<nat>, target: int)
    requires RollsInRange(rolls, |eligible|)
  {
    |Select(eligible, rolls, target, [])| >= target
  }

  /** The selection extends what was already chosen, never past the target, with eligible
      participants of ids not chosen before. */
  lemma {:induction false} SelectExtends(eligible: seq<Participant>, rolls: seq<nat>, target: int, chosen: seq<Participant>)
    requires RollsInRange(rolls, |eligible|)
    ensures var r := Select(eligible, rolls, target, chosen);
      |chosen| <= |r| && r[..|chosen|] == chosen &&
      (|chosen| <= target ==> |r| <= target) &&
      (DistinctIds(chosen) ==> DistinctIds(r)) &&
      ((forall w :: w in chosen ==> w in eligible) ==> forall w :: w in r ==> w in eligible)
    decreases |rolls|
  {
    if |chosen| < target && rolls != [] {
      var w := eligible[rolls[0]];
      var next := if HasId(chosen, w.id) then chosen else chosen + [w];
      SelectExtends(eligible, rolls[1..], target, next);
      var r := Select(eligible, rolls, target, chosen);
      assert r[..|chosen|] == r[..|next|][..|chosen|];
      if DistinctIds(chosen) && !HasId(chosen, w.id) {
        forall i, j | 0 <= i < j < |next| ensures next[i].id != next[j].id {
          if j == |chosen| {
            assert next[i] == chosen[i];
          } else {
            assert next[i] == chosen[i] && next[j] == chosen[j];
          }
        }
      }
    }
  }

  /** The winners of one draw, in pick order: exactly `min(winnerCount, eligible.length)` of
      them (none when that is not positive), with pairwise distinct ids, all eligible. */
  function Picks(eligible: seq<Participant>, rolls: seq<nat>, winnerCount: int): (r: seq<Participant>)
    requires RollsInRange(rolls, |eligible|)
    requires Suffices(eligible, rolls, WinnerTarget(winnerCount, |eligible|))
    ensures |r| == if WinnerTarget(winnerCount, |eligible|) < 0 then 0 else WinnerTarget(winnerCount, |eligible|)
    ensures DistinctIds(r)
    ensures forall w :: w in r ==> w in eligible
  {
    SelectExtends(eligible, rolls, WinnerTarget(winnerCount, |eligible|), []);
    Select(eligible, rolls, WinnerTarget(winnerCount, |eligible|), [])
  }

  /** The ascending indices `lo`, ..., `hi - 1`. */
  function Indices(lo: nat, hi: nat): (r: seq<nat>)
    requires lo <= hi
    ensures |r| == hi - lo && forall k :: 0 <= k < |r| ==> r[k] == lo + k
    decreases hi - lo
  {
    if lo == hi then [] else [lo] + Indices(lo + 1, hi)
  }

  /** With distinct ids, rolling every index once in order picks the first `target`
      participants: so suitable rolls always exist and the loop can end. */
  lemma {:induction false} SequentialRolls(eligible: seq<Participant>, target: nat, k: nat)
    requires DistinctIds(eligible) && k <= target <= |eligible|
    ensures Select(eligible, Indices(k, |eligible|), target, eligible[..k]) == eligible[..target]
    decreases |eligible| - k
  {
    if k < target {
      var rolls := Indices(k, |eligible|);
      var w := eligible[rolls[0]];
      assert w == eligible[k];
      assert !HasId(eligible[..k], w.id);
      assert eligible[..k] + [w] == eligible[..k + 1];
      assert rolls[1..] == Indices(k + 1, |eligible|);
      SequentialRolls(eligible, target, k + 1);
    }
  }

  /** The rolls 0, 1, ..., n-1 suffice for every draw over eligible participants with
      distinct ids. */
  lemma RollsExist(eligible: seq<Participant>, winnerCount: int)
    requires DistinctIds(eligible)
    ensures RollsInRange(Indices(0, |eligible|), |eligible|)
    ensures Suffices(eligible, Indices(0, |eligible|), WinnerTarget(winnerCount, |eligible|))
  {
    var t := WinnerTarget(winnerCount, |eligible|);
    if t > 0 {
      SequentialRolls(eligible, t, 0);
      assert eligible[..0] == [];
    }
  }

  /** Participants that share an id count as one winner: two eligible participants with
      the same id never give the loop a second winner, whatever the rolls, so a draw for two
      winners never ends. */
  lemma SharedIdNeverSuffices(a: Participant, b: Participant, rolls: seq<nat>)
    requires a.id == b.id && RollsInRange(rolls, 2)
    ensures !Suffices([a, b], rolls, 2)
  {
    var none: seq<Participant> := [];
    SelectExtends([a, b], rolls, 2, none);
    var r := Select([a, b], rolls, 2, none);
    assert DistinctIds(none);
    assert forall w :: w in none ==> w in [a, b];
    assert DistinctIds(r) && forall w :: w in r ==> w in [a, b];
    if |r| >= 2 {
      FirstTwo(r);
    }
  }

  /** The first two entries of a list with distinct ids are entries with different ids. */
  lemma FirstTwo(r: seq<Participant>)
    requires DistinctIds(r) && |r| >= 2
    ensures r[0] in r && r[1] in r && r[0].id != r[1].id
  {
  }

  /** What `drawWinner` resolves to: `null` when nobody is eligible, otherwise the first pick,
      absent (`undefined`) when no winner was picked. */
  datatype DrawResult = NoEligible | Drawn(first: Option<Participant>)

  // ---------------------------------------------------------------------------------------
  // updateSettings
  // ---------------------------------------------------------------------------------------

  function Pick<T>(supplied: Option<T>, current: T): T {
    if supplied.Some? then supplied.value else current
  }

  /** `{ ...settings, ...patch }`: every supplied field overwrites, every other field stays. */
  function Merge(s: Settings, p: SettingsPatch): (r: Settings)
    ensures p.roomId.Some? ==> r.roomId == p.roomId.value
    ensures p.roomId.None? ==> r.roomId == s.roomId
    ensures p.minLevel.Some? ==> r.minLevel == p.minLevel.value
    ensures p.minLevel.None? ==> r.minLevel == s.minLevel
    ensures p.maxParticipants.Some? ==> r.maxParticipants == p.maxParticipants.value
    ensures p.maxParticipants.None? ==> r.maxParticipants == s.maxParticipants
    ensures p.winnerCount.Some? ==> r.winnerCount == p.winnerCount.value
    ensures p.winnerCount.None? ==> r.winnerCount == s.winnerCount
    ensures p.animationSpeed.Some? ==> r.animationSpeed == p.animationSpeed.value
    ensures p.animationSpeed.None? ==> r.animationSpeed == s.animationSpeed
    ensures p.isLotteryRunning.Some? ==> r.isLotteryRunning == p.isLotteryRunning.value
    ensures p.isLotteryRunning.None? ==> r.isLotteryRunning == s.isLotteryRunning
    ensures p.isReadingChat.Some? ==> r.isReadingChat == p.isReadingChat.value
    ensures p.isReadingChat.None? ==> r.isReadingChat == s.isReadingChat
  {
    Settings(
      Pick(p.roomId, s.roomId),
      Pick(p.minLevel, s.minLevel),
      Pick(p.maxParticipants, s.maxParticipants),
      Pick(p.winnerCount, s.winnerCount),
      Pick(p.animationSpeed, s.animationSpeed),
      Pick(p.isLotteryRunning, s.isLotteryRunning),
      Pick(p.isReadingChat, s.isReadingChat))
  }

  /** Two patches spread one after the other: the later one wins where both supply a field. */
  function Then(p: SettingsPatch, q: SettingsPatch): SettingsPatch {
    SettingsPatch(
      if q.roomId.Some? then q.roomId else p.roomId,
      if q.minLevel.Some? then q.minLevel else p.minLevel,
      if q.maxParticipants.Some? then q.maxParticipants else p.maxParticipants,
      if q.winnerCount.Some? then q.winnerCount else p.winnerCount,
      if q.animationSpeed.Some? then q.animationSpeed else p.animationSpeed,
      if q.isLotteryRunning.Some? then q.isLotteryRunning else p.isLotteryRunning,
      if q.isReadingChat.Some? then q.isReadingChat else p.isReadingChat)
  }

  /** The empty patch changes nothing, a patch applied twice acts once, and two updates in a
      row are one update with the combined patch. */
  lemma MergeLaws(s: Settings, p: SettingsPatch, q: SettingsPatch)
    ensures Merge(s, EmptyPatch) == s
    ensures Merge(Merge(s, p), p) == Merge(s, p)
    ensures Merge(Merge(s, p), q) == Merge(s, Then(p, q))
  {
  }

  // ---------------------------------------------------------------------------------------
  // The store
  // ---------------------------------------------------------------------------------------

  class LotteryStore {
    var participants: seq<Participant>
    var winners: seq<Participant>
    var settings: Settings

    /** The store's own actions never let two participants share a username. */
    ghost predicate Valid()
      reads this
    {
      DistinctUsernames(participants)
    }

    /** The initial state: no participants, no winners, the default settings. */
    constructor ()
      ensures Valid()
      ensures participants == [] && winners == [] && settings == DefaultSettings
    {
      participants := [];
      winners := [];
      settings := DefaultSettings;
    }

    /** The `filteredParticipants` getter. */
    function FilteredParticipants(): (r: seq<Participant>)
      reads this
      ensures forall p :: p in r <==> p in participants && p.level >= settings.minLevel
      ensures |r| <= |participants|
    {
      EligibleSpec(participants, settings.minLevel);
      Eligible(participants, settings.minLevel)
    }

    /** The `participantCount` getter. */
    function ParticipantCount(): (r: nat)
      reads this
      ensures r <= |participants|
      ensures r == 0 <==> forall p :: p in participants ==> p.level < settings.minLevel
    {
      var f := FilteredParticipants();
      assert f != [] ==> f[0] in f;
      |f|
    }

    /** `addParticipant(username, level)`, with the generated id and the current time given:
        adds a participant at the end exactly when the username is new and the list is below
        the cap. */
    method AddParticipant(username: JsString, id: JsString, now: int, level: int := 1)
      returns (added: bool)
      requires Valid()
      modifies this
      ensures Valid()
      ensures added <==> !HasUsername(old(participants), username) && |old(participants)| < settings.maxParticipants
      ensures added ==> participants == old(participants) + [Participant(id, username, level, now)]
      ensures added ==> |participants| <= settings.maxParticipants
      ensures !added ==> participants == old(participants)
      ensures winners == old(winners) && settings == old(settings)
    {
      var existing := FindByUsername(participants, username);
      if existing.None? && |participants| < settings.maxParticipants {
        var p := Participant(id, username, level, now);
        AddKeepsInvariant(participants, settings.maxParticipants, p);
        participants := participants + [p];
        added := true;
      } else {
        added := false;
      }
    }

    /** `removeParticipant(id)`: splices out the first participant with that id, if any. */
    method RemoveParticipant(id: JsString)
      requires Valid()
      modifies this
      ensures Valid()
      ensures participants == RemoveFirst(old(participants), id)
      ensures winners == old(winners) && settings == old(settings)
    {
      RemoveKeepsInvariant(participants, id);
      var index := IndexOfId(participants, id);
      if index != -1 {
        participants := participants[..index] + participants[index + 1..];
      }
    }

    /** `clearParticipants()`: empties the participant list only. */
    method ClearParticipants()
      modifies this
      ensures Valid()
      ensures participants == [] && winners == old(winners) && settings == old(settings)
    {
      participants := [];
    }

    /** `drawWinner()`, with the random indices supplied as `rolls`. With nobody eligible it
        resolves to `null` and changes nothing. Otherwise it picks the winners, puts them in
        pick order in front of the earlier winners, and ends with the lottery not running. */
    method DrawWinner(rolls: seq<nat>) returns (result: DrawResult)
      requires RollsInRange(rolls, |FilteredParticipants()|)
      requires Suffices(FilteredParticipants(), rolls,
                        WinnerTarget(settings.winnerCount, |FilteredParticipants()|))
      modifies this
      ensures old(FilteredParticipants()) == [] ==>
        result == NoEligible && participants == old(participants) &&
        winners == old(winners) && settings == old(settings)
      ensures old(FilteredParticipants()) != [] ==>
        var picks := Picks(old(FilteredParticipants()), rolls, old(settings).winnerCount);
        result == Drawn(if picks == [] then None else Some(picks[0])) &&
        winners == picks + old(winners) &&
        participants == old(participants) &&
        settings == old(settings).(isLotteryRunning := false)
    {
      if |FilteredParticipants()| == 0 {
        return NoEligible;
      }
      settings := settings.(isLotteryRunning := true);
      var eligible := FilteredParticipants();
      var winnerCount := WinnerTarget(settings.winnerCount, |eligible|);
      var selectedWinners: seq<Participant> := [];
      var j := 0;
      while |selectedWinners| < winnerCount
        invariant 0 <= j <= |rolls|
        invariant Select(eligible, rolls[j..], winnerCount, selectedWinners) ==
                  Select(eligible, rolls, winnerCount, [])
        decreases |rolls| - j
      {
        assert rolls[j..] != [];
        assert rolls[j..][1..] == rolls[j + 1..];
        var winner := eligible[rolls[j]];
        if FindById(selectedWinners, winner.id).None? {
          selectedWinners := selectedWinners + [winner];
        }
        j := j + 1;
      }
      winners := selectedWinners + winners;
      settings := settings.(isLotteryRunning := false);
      result := Drawn(if |selectedWinners| > 0 then Some(selectedWinners[0]) else None);
    }

    /** `updateSettings(patch)`: merges the supplied fields into the settings. */
    method UpdateSettings(patch: SettingsPatch)
      requires Valid()
      modifies this
      ensures Valid()
      ensures settings == Merge(old(settings), patch)
      ensures participants == old(participants) && winners == old(winners)
    {
      settings := Merge(settings, patch);
    }

    /** `clearWinners()`: empties the winner list only. */
    method ClearWinners()
      requires Valid()
      modifies this
      ensures Valid()
      ensures winners == [] && participants == old(participants) && settings == old(settings)
    {
      winners := [];
    }
  }

  /** `selectedWinners.find(w => w.id === id)`: the first chosen winner with that id, if any. */
  function FindById(ps: seq<Participant>, id: JsString): (r: Option<Participant>)
    ensures r.Some? <==> HasId(ps, id)
    ensures r.Some? ==> r.value in ps && r.value.id == id
  {
    var k := IndexOfId(ps, id);
    if k == -1 then None else Some(ps[k])
  }
}

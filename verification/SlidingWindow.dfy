/** The event detector (backend/logic/predictions_logic.py): frames, a sliding window, game events and player
    statistics. */
module SlidingWindow {
  import opened Wrappers

  datatype Box = Box(xMin: real, yMin: real, xMax: real, yMax: real)

  datatype Player = Player(box: Box, userId: Option<int>)

  datatype Frame = Frame(balls: seq<Box>, rims: seq<Box>, players: seq<Player>)

  datatype State = State(possession: Option<int>, shot: bool)

  datatype ShotResult = Undecided | Made

  datatype Kind =
    | Shot(possession: Option<int>, result: ShotResult)
    | Pass(from: int, to: int)
    | Turnover(lostBy: int)
    | Steal(gainedBy: int)
    | Dribble(player: int)

  datatype GameEvent = GameEvent(kind: Kind, time: real)

  datatype PlayerStats = PlayerStats(points: int, steals: int, turnovers: int, assists: int,
                                     offensiveRebounds: int, defensiveRebounds: int)

  type StatsTable = map<int, PlayerStats>

  // ---------- One frame ----------

  /** The centres are less than 50 apart. */
  predicate IsNear(a: Box, b: Box) {
    SquaredDistance(a, b) < 2500.0
  }

  /** The square of the distance of the centres. */
  function SquaredDistance(a: Box, b: Box): real {
    var dx := (a.xMin + a.xMax) / 2.0 - (b.xMin + b.xMax) / 2.0;
    var dy := (a.yMin + a.yMax) / 2.0 - (b.yMin + b.yMax) / 2.0;
    dx * dx + dy * dy
  }

  /** For the distance d of the centres: the test is d < 50. */
  lemma NearIsWithinFifty(a: Box, b: Box, d: real)
    requires d >= 0.0 && d * d == SquaredDistance(a, b)
    ensures IsNear(a, b) <==> d < 50.0
  {
    hide SquaredDistance;
    if d < 50.0 {
      NotNegative(d, 50.0 - d);
      assert d * (50.0 - d) == 50.0 * d - d * d;
    } else {
      NotNegative(d, d - 50.0);
      assert d * (d - 50.0) == d * d - 50.0 * d;
    }
  }

  lemma NotNegative(x: real, y: real)
    requires x >= 0.0 && y >= 0.0
    ensures x * y >= 0.0
  {
  }

  predicate NearSomeRim(ball: Box, rims: seq<Box>) {
    exists r | 0 <= r < |rims| :: IsNear(ball, rims[r])
  }

  predicate ShotIn(frame: Frame) {
    exists b | 0 <= b < |frame.balls| :: NearSomeRim(frame.balls[b], frame.rims)
  }

  /** Player p is near ball b, and no earlier ball, and no earlier player for this ball, makes such a pair. */
  predicate IsFirstPair(frame: Frame, b: nat, p: nat) {
    && b < |frame.balls| && p < |frame.players| && IsNear(frame.balls[b], frame.players[p].box)
    && (forall b', p' | 0 <= b' < |frame.balls| && 0 <= p' < |frame.players| && (b' < b || (b' == b && p' < p)) ::
          !IsNear(frame.balls[b'], frame.players[p'].box))
  }

  ghost predicate HasPair(frame: Frame) {
    exists b: nat, p: nat :: IsFirstPair(frame, b, p)
  }

  ghost function FirstPair(frame: Frame): (r: (nat, nat))
    requires HasPair(frame)
    ensures IsFirstPair(frame, r.0, r.1)
  {
    var b: nat, p: nat :| IsFirstPair(frame, b, p);
    (b, p)
  }

  ghost function Holder(frame: Frame): Option<int> {
    if HasPair(frame) then frame.players[FirstPair(frame).1].userId else None
  }

  lemma HolderIs(frame: Frame, b: nat, p: nat)
    requires IsFirstPair(frame, b, p)
    ensures Holder(frame) == frame.players[p].userId
  {
    hide IsNear;
    var (b', p') := FirstPair(frame);
    assert IsNear(frame.balls[b'], frame.players[p'].box) && IsNear(frame.balls[b], frame.players[p].box);
  }

  lemma NobodyHolds(frame: Frame)
    requires forall b, p | 0 <= b < |frame.balls| && 0 <= p < |frame.players| ::
               !IsNear(frame.balls[b], frame.players[p].box)
    ensures Holder(frame) == None
  {
  }

  method DeterminePossession(frame: Frame) returns (r: Option<int>)
    ensures r == Holder(frame)
  {
    for b := 0 to |frame.balls|
      invariant forall b', p' | 0 <= b' < b && 0 <= p' < |frame.players| ::
                  !IsNear(frame.balls[b'], frame.players[p'].box)
    {
      for p := 0 to |frame.players|
        invariant forall p' | 0 <= p' < p :: !IsNear(frame.balls[b], frame.players[p'].box)
      {
        if IsNear(frame.balls[b], frame.players[p].box) {
          HolderIs(frame, b, p);
          return frame.players[p].userId;
        }
      }
    }
    NobodyHolds(frame);
    return None;
  }

  method DetectShots(frame: Frame) returns (shots: seq<Box>)
    ensures forall s :: s in shots <==> s in frame.balls && NearSomeRim(s, frame.rims)
    ensures shots != [] <==> ShotIn(frame)
  {
    shots := [];
    for b := 0 to |frame.balls|
      invariant forall s :: s in shots <==> s in frame.balls[..b] && NearSomeRim(s, frame.rims)
    {
      if NearSomeRim(frame.balls[b], frame.rims) {
        shots := shots + [frame.balls[b]];
      }
    }
    assert frame.balls[..|frame.balls|] == frame.balls;
    if shots != [] {
      assert shots[0] in shots;
    }
    if ShotIn(frame) {
      var b :| 0 <= b < |frame.balls| && NearSomeRim(frame.balls[b], frame.rims);
      assert frame.balls[b] in shots;
    }
  }

  ghost function StateOf(frame: Frame): State {
    State(Holder(frame), ShotIn(frame))
  }

  method GetFrameState(frame: Frame) returns (s: State)
    ensures s == StateOf(frame)
  {
    var possession := DeterminePossession(frame);
    var shots := DetectShots(frame);
    return State(possession, shots != []);
  }

  ghost function StatesOf(frames: seq<Frame>): (s: seq<State>)
    ensures |s| == |frames|
  {
    seq(|frames|, i requires 0 <= i < |frames| => StateOf(frames[i]))
  }

  lemma StatesAre(frames: seq<Frame>)
    ensures |StatesOf(frames)| == |frames|
    ensures forall i | 0 <= i < |frames| :: StatesOf(frames)[i] == StateOf(frames[i])
  {
  }

  // ---------- The window ----------

  /** Some frame of [lo, hi) shows a shot. */
  predicate AnyShot(states: seq<State>, lo: nat, hi: nat)
    requires hi <= |states|
  {
    exists j | lo <= j < hi :: states[j].shot
  }

  function AggregateWindowState(window: seq<State>): State
    requires window != []
  {
    State(window[|window| - 1].possession, AnyShot(window, 0, |window|))
  }

  /** What the detector should know at frame i: who has the ball now, and whether any of the last w frames shows a
      shot. */
  function SpecState(states: seq<State>, w: nat, i: nat): State
    requires 1 <= w <= i + 1 <= |states|
  {
    State(states[i].possession, AnyShot(states, i + 1 - w, i + 1))
  }

  /** The window holds the states of frames [lo, hi). */
  predicate Shows(window: seq<State>, states: seq<State>, lo: int, hi: int) {
    0 <= lo <= hi <= |states| && window == states[lo..hi]
  }

  lemma ShowsNone(states: seq<State>)
    ensures Shows([], states, 0, 0)
  {
  }

  lemma Grow(window: seq<State>, states: seq<State>, lo: int, hi: int)
    requires Shows(window, states, lo, hi) && hi < |states|
    ensures Shows(window + [states[hi]], states, lo, hi + 1)
  {
  }

  lemma Slide(window: seq<State>, states: seq<State>, lo: int, hi: int)
    requires Shows(window, states, lo, hi) && lo < hi < |states|
    ensures window != [] && Shows(window[1..] + [states[hi]], states, lo + 1, hi + 1)
  {
  }

  lemma AggregateIsSpec(window: seq<State>, states: seq<State>, w: nat, i: nat)
    requires 1 <= w <= i + 1 <= |states| && Shows(window, states, i + 1 - w, i + 1)
    ensures window != [] && AggregateWindowState(window) == SpecState(states, w, i)
  {
    ShownShots(window, states, i + 1 - w, i + 1);
    hide AnyShot;
    assert window[w - 1] == states[i];
  }

  lemma ShownShots(window: seq<State>, states: seq<State>, lo: nat, hi: nat)
    requires Shows(window, states, lo, hi)
    ensures AnyShot(window, 0, |window|) <==> AnyShot(states, lo, hi)
  {
    assert forall j | 0 <= j < |window| :: window[j] == states[lo + j];
    if AnyShot(states, lo, hi) {
      var j :| lo <= j < hi && states[j].shot;
      assert window[j - lo].shot;
    }
    if AnyShot(window, 0, |window|) {
      var j :| 0 <= j < |window| && window[j].shot;
      assert states[lo + j].shot;
    }
  }

  function DetermineEventChange(before: State, now: State, time: real): Option<GameEvent> {
    if !before.shot && now.shot then
      Some(GameEvent(Shot(now.possession, Undecided), time))
    else if before.possession != now.possession then
      match (before.possession, now.possession)
      case (Some(a), Some(b)) => Some(GameEvent(Pass(a, b), time))
      case (Some(a), None) => Some(GameEvent(Turnover(a), time))
      case (None, Some(b)) => Some(GameEvent(Steal(b), time))
      case (None, None) => None
    else if now.possession.Some? then
      Some(GameEvent(Dribble(now.possession.value), time))
    else
      None
  }

  function Timestamp(frame: nat, rate: real): real
    requires rate != 0.0
  {
    frame as real / rate
  }

  /** The event of frame i, if any; a frame whose aggregated state equals the last one is skipped. */
  function EventAt(states: seq<State>, w: nat, rate: real, i: nat): Option<GameEvent>
    requires 1 <= w <= i < |states| && rate != 0.0
  {
    var before, now := SpecState(states, w, i - 1), SpecState(states, w, i);
    if now == before then None else DetermineEventChange(before, now, Timestamp(i, rate))
  }

  /** The frames of [w, n) that produce an event, and their events. */
  function EventFrames(states: seq<State>, w: nat, rate: real, n: nat): (r: seq<nat>)
    requires 1 <= w <= n <= |states| && rate != 0.0
    ensures forall k | 0 <= k < |r| :: w <= r[k] < n && EventAt(states, w, rate, r[k]).Some?
  {
    if n == w then []
    else
      EventFrames(states, w, rate, n - 1) + if EventAt(states, w, rate, n - 1).Some? then [n - 1] else []
  }

  function EventsOf(states: seq<State>, w: nat, rate: real, frames: seq<nat>): (r: seq<GameEvent>)
    requires 1 <= w && rate != 0.0
    requires forall k | 0 <= k < |frames| :: w <= frames[k] < |states| && EventAt(states, w, rate, frames[k]).Some?
    ensures |r| == |frames|
    ensures forall k | 0 <= k < |r| :: r[k] == EventAt(states, w, rate, frames[k]).value
  {
    seq(|frames|, k requires 0 <= k < |frames| => EventAt(states, w, rate, frames[k]).value)
  }

  /** All events of a run over the first n frames, in frame order. */
  function Events(states: seq<State>, w: nat, rate: real, n: nat): seq<GameEvent>
    requires 1 <= w && n <= |states| && rate != 0.0
  {
    if n < w then [] else EventsOf(states, w, rate, EventFrames(states, w, rate, n))
  }

  lemma NoEventsYet(states: seq<State>, w: nat, rate: real, n: nat)
    requires 1 <= w && n <= w && n <= |states| && rate != 0.0
    ensures Events(states, w, rate, n) == []
  {
  }

  lemma EventsStep(states: seq<State>, w: nat, rate: real, n: nat)
    requires 1 <= w <= n < |states| && rate != 0.0
    ensures Events(states, w, rate, n + 1) == Events(states, w, rate, n) +
            match EventAt(states, w, rate, n) case None => [] case Some(e) => [e]
  {
  }

  lemma ChangeStep(states: seq<State>, w: nat, rate: real, n: nat, before: State, now: State)
    requires 1 <= w <= n < |states| && rate != 0.0
    requires before == SpecState(states, w, n - 1) && now == SpecState(states, w, n)
    ensures now == before ==> Events(states, w, rate, n + 1) == Events(states, w, rate, n)
    ensures now != before ==>
              var event := DetermineEventChange(before, now, Timestamp(n, rate));
              Events(states, w, rate, n + 1) ==
              if event.Some? then Events(states, w, rate, n) + [event.value] else Events(states, w, rate, n)
  {
    EventsStep(states, w, rate, n);
  }

  // ---------- Player statistics ----------

  function Fresh(): PlayerStats {
    PlayerStats(0, 0, 0, 0, 0, 0)
  }

  function StatsOf(table: StatsTable, player: int): PlayerStats {
    if player in table then table[player] else Fresh()
  }

  /** The player an event is booked on. */
  function Booked(kind: Kind): Option<int> {
    match kind
    case Shot(possession, _) => possession
    case Pass(from, _) => Some(from)
    case Turnover(lostBy) => Some(lostBy)
    case Steal(gainedBy) => Some(gainedBy)
    case Dribble(_) => None
  }

  function Booking(s: PlayerStats, kind: Kind): PlayerStats {
    match kind
    case Shot(_, result) => if result.Made? then s.(points := s.points + 2) else s
    case Pass(_, _) => s.(assists := s.assists + 1)
    case Turnover(_) => s.(turnovers := s.turnovers + 1)
    case Steal(_) => s.(steals := s.steals + 1)
    case Dribble(_) => s
  }

  function TableAfter(table: StatsTable, events: seq<GameEvent>): StatsTable {
    if events == [] then table
    else
      var before, kind := TableAfter(table, events[..|events| - 1]), events[|events| - 1].kind;
      match Booked(kind)
      case None => before
      case Some(p) => before[p := Booking(StatsOf(before, p), kind)]
  }

  class Detector {
    var playerStats: StatsTable

    constructor ()
      ensures playerStats == map[]
    {
      playerStats := map[];
    }

    method GetOrCreatePlayerStats(player: int) returns (s: PlayerStats)
      modifies this
      ensures s == StatsOf(old(playerStats), player)
      ensures playerStats == old(playerStats)[player := s]
    {
      if player !in playerStats {
        playerStats := playerStats[player := Fresh()];
      }
      s := playerStats[player];
      assert playerStats == old(playerStats)[player := s];
    }

    method UpdatePlayerStats(event: GameEvent)
      modifies this
      ensures playerStats == TableAfter(old(playerStats), [event])
    {
      match event.kind {
        case Shot(Some(shooter), result) =>
          var s := GetOrCreatePlayerStats(shooter);
          if result.Made? {
            playerStats := playerStats[shooter := s.(points := s.points + 2)];
          }
        case Pass(from, _) =>
          var s := GetOrCreatePlayerStats(from);
          playerStats := playerStats[from := s.(assists := s.assists + 1)];
        case Turnover(lostBy) =>
          var s := GetOrCreatePlayerStats(lostBy);
          playerStats := playerStats[lostBy := s.(turnovers := s.turnovers + 1)];
        case Steal(gainedBy) =>
          var s := GetOrCreatePlayerStats(gainedBy);
          playerStats := playerStats[gainedBy := s.(steals := s.steals + 1)];
        case _ =>
      }
      assert [event][..0] == [];
    }

    /** process_frames_with_sliding_window. */
    method ProcessFrames(frames: seq<Frame>, windowSize: nat, frameRate: real) returns (events: seq<GameEvent>)
      requires windowSize >= 1 && frameRate != 0.0
      modifies this
      ensures events == Events(StatesOf(frames), windowSize, frameRate, |frames|)
      ensures playerStats == TableAfter(old(playerStats), events)
    {
      hide *;
      events := [];
      ghost var states := StatesOf(frames);
      StatesAre(frames);
      TableOfNone(playerStats);
      if |frames| < windowSize {
        NoEventsYet(states, windowSize, frameRate, |frames|);
        return;
      }
      NoEventsYet(states, windowSize, frameRate, windowSize);
      var window: seq<State> := [];
      ShowsNone(states);
      for k := 0 to windowSize
        invariant Shows(window, states, 0, k)
        invariant playerStats == old(playerStats)
      {
        var s := GetFrameState(frames[k]);
        Grow(window, states, 0, k);
        window := window + [s];
      }
      ghost var last: nat := windowSize - 1;
      assert last + 1 - windowSize == 0;
      AggregateIsSpec(window, states, windowSize, last);
      var previous := AggregateWindowState(window);
      for i := windowSize to |frames|
        invariant Shows(window, states, i - windowSize, i)
        invariant previous == SpecState(states, windowSize, i - 1)
        invariant events == Events(states, windowSize, frameRate, i)
        invariant playerStats == TableAfter(old(playerStats), events)
      {
        var s := GetFrameState(frames[i]);
        Slide(window, states, i - windowSize, i);
        window := window[1..] + [s];
        AggregateIsSpec(window, states, windowSize, i);
        var current := AggregateWindowState(window);
        ChangeStep(states, windowSize, frameRate, i, previous, current);
        if current != previous {
          var event := DetermineEventChange(previous, current, Timestamp(i, frameRate));
          if event.Some? {
            TableStep(old(playerStats), events, event.value);
            events := events + [event.value];
            UpdatePlayerStats(event.value);
          }
        }
        previous := current;
      }
    }
  }

  lemma TableOfNone(table: StatsTable)
    ensures TableAfter(table, []) == table
  {
  }

  lemma TableStep(table: StatsTable, events: seq<GameEvent>, e: GameEvent)
    ensures TableAfter(table, events + [e]) == TableAfter(TableAfter(table, events), [e])
  {
    assert (events + [e])[..|events|] == events;
    assert [e][..0] == [];
    TableOfNone(TableAfter(table, events));
  }

  // ---------- Shots ----------

  /** A shot event is produced exactly by a frame that shows a shot when none of the w frames before it does. */
  lemma ShotEventIffFirst(states: seq<State>, w: nat, rate: real, i: nat)
    requires 1 <= w <= i < |states| && rate != 0.0
    ensures (EventAt(states, w, rate, i).Some? && EventAt(states, w, rate, i).value.kind.Shot?) <==>
            (states[i].shot && !AnyShot(states, i - w, i))
  {
    var now := SpecState(states, w, i);
    if now.shot {
      var j :| i + 1 - w <= j < i + 1 && states[j].shot;
      assert j < i ==> AnyShot(states, i - w, i);
    }
    if states[i].shot {
      assert now.shot;
    }
  }

  /** That event is a shot by the holder of this frame, whoever had the ball before. */
  lemma ShotEventIs(states: seq<State>, w: nat, rate: real, i: nat)
    requires 1 <= w <= i < |states| && rate != 0.0
    requires states[i].shot && forall j | i - w <= j < i :: !states[j].shot
    ensures EventAt(states, w, rate, i) == Some(GameEvent(Shot(states[i].possession, Undecided), i as real / rate))
  {
    ShotEventIffFirst(states, w, rate, i);
  }

  /** Every other event, read off the raw frames: w frames back is where the last shot must lie for a dribble. */
  lemma OtherEventsAre(states: seq<State>, w: nat, rate: real, i: nat)
    requires 1 <= w <= i < |states| && rate != 0.0
    requires !(states[i].shot && !AnyShot(states, i - w, i))
    ensures EventAt(states, w, rate, i) ==
            match (states[i - 1].possession, states[i].possession)
            case (Some(a), Some(b)) =>
              if a != b then Some(GameEvent(Pass(a, b), i as real / rate))
              else if states[i - w].shot && !AnyShot(states, i + 1 - w, i + 1)
              then Some(GameEvent(Dribble(a), i as real / rate))
              else None
            case (Some(a), None) => Some(GameEvent(Turnover(a), i as real / rate))
            case (None, Some(b)) => Some(GameEvent(Steal(b), i as real / rate))
            case (None, None) => None
  {
    ShotEventIffFirst(states, w, rate, i);
    if AnyShot(states, i - w, i) {
      var j :| i - w <= j < i && states[j].shot;
      assert j == i - w || AnyShot(states, i + 1 - w, i + 1);
    }
  }

  /** The events come from strictly increasing frames, and no frame with an event is missed. */
  lemma {:induction false} FramesInOrder(states: seq<State>, w: nat, rate: real, n: nat)
    requires 1 <= w <= n <= |states| && rate != 0.0
    ensures var r := EventFrames(states, w, rate, n);
            && (forall k, l | 0 <= k < l < |r| :: r[k] < r[l])
            && (forall i | w <= i < n && EventAt(states, w, rate, i).Some? :: i in r)
  {
    hide EventAt;
    if n > w {
      FramesInOrder(states, w, rate, n - 1);
      var before, r := EventFrames(states, w, rate, n - 1), EventFrames(states, w, rate, n);
      forall i | w <= i < n && EventAt(states, w, rate, i).Some?
        ensures i in r
      {
        if i < n - 1 {
          assert i in before;
        } else {
          assert r[|r| - 1] == i;
        }
      }
    }
  }

  /** Two shot events of one run are at least w + 1 frames apart. */
  lemma ShotsAreFarApart(states: seq<State>, w: nat, rate: real, k: nat, l: nat)
    requires 1 <= w <= |states| && rate != 0.0
    requires k < l < |Events(states, w, rate, |states|)|
    requires Events(states, w, rate, |states|)[k].kind.Shot? && Events(states, w, rate, |states|)[l].kind.Shot?
    ensures var frames := EventFrames(states, w, rate, |states|);
            && frames[l] >= frames[k] + w + 1
            && Events(states, w, rate, |states|)[k].time == frames[k] as real / rate
            && Events(states, w, rate, |states|)[l].time == frames[l] as real / rate
  {
    var frames := EventFrames(states, w, rate, |states|);
    FramesInOrder(states, w, rate, |states|);
    var i, j := frames[k], frames[l];
    assert i in frames && j in frames;
    ShotEventIffFirst(states, w, rate, i);
    ShotEventIffFirst(states, w, rate, j);
    assert forall m | j - w <= m < j :: !states[m].shot;
  }

  // ---------- Conservation ----------

  datatype Stat = Assist | TurnoverStat | StealStat

  predicate Credits(kind: Kind, stat: Stat, player: int) {
    match stat
    case Assist => kind.Pass? && kind.from == player
    case TurnoverStat => kind.Turnover? && kind.lostBy == player
    case StealStat => kind.Steal? && kind.gainedBy == player
  }

  function Count(events: seq<GameEvent>, stat: Stat, player: int): nat {
    if events == [] then 0
    else
      Count(events[..|events| - 1], stat, player) + if Credits(events[|events| - 1].kind, stat, player) then 1 else 0
  }

  /** How many of the events are made shots of the player. */
  function MadeBy(events: seq<GameEvent>, player: int): nat {
    if events == [] then 0
    else
      MadeBy(events[..|events| - 1], player)
      + if events[|events| - 1].kind == Shot(Some(player), Made) then 1 else 0
  }

  /** The player is the shooter, the passer, the one who lost the ball or the one who gained it. */
  predicate ActsIn(kind: Kind, player: int) {
    || (kind.Shot? && kind.possession == Some(player)) || (kind.Pass? && kind.from == player)
    || (kind.Turnover? && kind.lostBy == player) || (kind.Steal? && kind.gainedBy == player)
  }

  /** What the table says of the player after the events. */
  ghost predicate Grown(table: StatsTable, after: StatsTable, events: seq<GameEvent>, player: int) {
    && StatsOf(after, player) == PlayerStats(
         StatsOf(table, player).points + 2 * MadeBy(events, player),
         StatsOf(table, player).steals + Count(events, StealStat, player),
         StatsOf(table, player).turnovers + Count(events, TurnoverStat, player),
         StatsOf(table, player).assists + Count(events, Assist, player),
         StatsOf(table, player).offensiveRebounds, StatsOf(table, player).defensiveRebounds)
    && (player in after <==> player in table || exists k | 0 <= k < |events| :: ActsIn(events[k].kind, player))
  }

  /** Each count grows by exactly the matching events, a made shot gives two points, rebounds stay; a player is listed
      once an event is the player's. */
  lemma {:induction false} StatsGrowByEvents(table: StatsTable, events: seq<GameEvent>, player: int)
    ensures Grown(table, TableAfter(table, events), events, player)
  {
    if events != [] {
      var rest, last := events[..|events| - 1], events[|events| - 1];
      StatsGrowByEvents(table, rest, player);
      assert ActsIn(last.kind, player) ==> player in TableAfter(table, events);
      if k :| 0 <= k < |rest| && ActsIn(rest[k].kind, player) {
        assert ActsIn(events[k].kind, player);
      }
    }
  }

  lemma {:induction false} NoneMade(events: seq<GameEvent>, player: int)
    requires forall k | 0 <= k < |events| :: events[k].kind.Shot? ==> events[k].kind.result.Undecided?
    ensures MadeBy(events, player) == 0
    decreases |events|
  {
    if events != [] {
      NoneMade(events[..|events| - 1], player);
    }
  }

  /** The statistics of one run, whatever was in the table before: no shot of a run is ever made. */
  lemma RunStatistics(table: StatsTable, states: seq<State>, w: nat, rate: real, player: int)
    requires 1 <= w && rate != 0.0
    ensures var events := Events(states, w, rate, |states|);
            var before, after := StatsOf(table, player), StatsOf(TableAfter(table, events), player);
            && Grown(table, TableAfter(table, events), events, player)
            && after.points == before.points
            && after.assists == before.assists + Count(events, Assist, player)
            && after.turnovers == before.turnovers + Count(events, TurnoverStat, player)
            && after.steals == before.steals + Count(events, StealStat, player)
  {
    var events := Events(states, w, rate, |states|);
    NoneMade(events, player);
    StatsGrowByEvents(table, events, player);
  }

  // ---------- The ball is accounted for ----------

  function Holds(s: State, player: int): int {
    if s.possession == Some(player) then 1 else 0
  }

  /** What an event says about the player's hold on the ball. */
  function Change(kind: Kind, player: int): int {
    match kind
    case Pass(from, to) => (if to == player then 1 else 0) - (if from == player then 1 else 0)
    case Turnover(lostBy) => if lostBy == player then -1 else 0
    case Steal(gainedBy) => if gainedBy == player then 1 else 0
    case _ => 0
  }

  function Changes(events: seq<GameEvent>, player: int): int {
    if events == [] then 0
    else Changes(events[..|events| - 1], player) + Change(events[|events| - 1].kind, player)
  }

  /** The changes of hold that a shot event of the same frame hides. */
  function Hidden(states: seq<State>, w: nat, n: nat, player: int): int
    requires 1 <= w <= n <= |states|
  {
    if n == w then 0
    else
      Hidden(states, w, n - 1, player) +
      if states[n - 1].shot && !AnyShot(states, n - 1 - w, n - 1)
      then Holds(states[n - 1], player) - Holds(states[n - 2], player) else 0
  }

  lemma ChangesOfNone(player: int)
    ensures Changes([], player) == 0
  {
  }

  lemma {:induction false} ChangesSnoc(events: seq<GameEvent>, e: GameEvent, player: int)
    ensures Changes(events + [e], player) == Changes(events, player) + Change(e.kind, player)
  {
    assert (events + [e])[..|events|] == events;
  }

  /** One frame: its event, or what a shot of this frame hides, is the change of hold. */
  lemma FrameChange(states: seq<State>, w: nat, rate: real, i: nat, player: int)
    requires 1 <= w <= i < |states| && rate != 0.0
    ensures var event := EventAt(states, w, rate, i);
            (if event.Some? then Change(event.value.kind, player) else 0) +
            (if states[i].shot && !AnyShot(states, i - w, i)
               then Holds(states[i], player) - Holds(states[i - 1], player)
             else 0)
            == Holds(states[i], player) - Holds(states[i - 1], player)
  {
    ShotEventIffFirst(states, w, rate, i);
  }

  /** Passes, turnovers and steals, with the changes hidden behind shots, add up to the change of possession. */
  lemma {:induction false} PossessionIsAccountedFor(states: seq<State>, w: nat, rate: real, n: nat, player: int)
    requires 1 <= w <= n <= |states| && rate != 0.0
    ensures Changes(Events(states, w, rate, n), player) + Hidden(states, w, n, player) ==
            Holds(states[n - 1], player) - Holds(states[w - 1], player)
  {
    hide Events, EventAt, AnyShot, Holds, Change, Changes;
    if n == w {
      NoEventsYet(states, w, rate, n);
      ChangesOfNone(player);
    } else {
      PossessionIsAccountedFor(states, w, rate, n - 1, player);
      EventsStep(states, w, rate, n - 1);
      FrameChange(states, w, rate, n - 1, player);
      var event := EventAt(states, w, rate, n - 1);
      if event.Some? {
        ChangesSnoc(Events(states, w, rate, n - 1), event.value, player);
      } else {
        assert Events(states, w, rate, n) == Events(states, w, rate, n - 1);
      }
    }
  }
}

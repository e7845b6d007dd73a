/** The lobby as a state machine: who is connected, and every lobby packet ever
    put into each player's TCP stream. Players are named by an unbounded ticket. */
module Lobby {

  const MAX_PLAYERS: nat := 4

  datatype Team = Spy | Merc

  datatype Msg = Join(id: nat, team: Team) | Leave(id: nat) | Shutdown

  /** stream[..flushed] has been handed to the socket; the rest is queued. seen
      names the players present when this one was added. */
  datatype Player = Player(id: nat, team: Team, stream: seq<Msg>, flushed: nat, seen: set<nat>) {
    function Push(m: Msg): Player { this.(stream := stream + [m]) }
    function PushSeq(ms: seq<Msg>): Player { this.(stream := stream + ms) }
  }

  /** What happens to a player that passes: a packet goes into its TCP queue, its queues are sent, or neither. */
  datatype Action = Post(m: Msg) | Flush | Skip

  function Act(p: Player, a: Action): Player {
    match a
    case Post(m) => p.Push(m)
    case Flush => p.(flushed := |p.stream|)
    case Skip => p
  }

  // ----- One pass over the players that kicks some of them -----

  /** Removes player i and tells everyone else. */
  function Kick(ps: seq<Player>, i: nat): (r: seq<Player>)
    requires i < |ps|
    ensures |r| == |ps| - 1
  {
    seq(|ps| - 1, k requires 0 <= k < |ps| - 1 => ps[if k < i then k else k + 1].Push(Leave(ps[i].id)))
  }

  /** Tells everyone that a player leaves. */
  function Tell(ps: seq<Player>, id: nat): (r: seq<Player>)
    ensures |r| == |ps| && forall i | 0 <= i < |ps| :: r[i] == ps[i].Push(Leave(id))
  {
    seq(|ps|, i requires 0 <= i < |ps| => ps[i].Push(Leave(id)))
  }

  lemma KickAt(ps: seq<Player>, i: nat, k: nat)
    requires i < |ps| && k < |ps| && k != i
    ensures Kick(ps, i)[if k < i then k else k - 1] == ps[k].Push(Leave(ps[i].id))
  {
  }

  lemma KickSame(ps: seq<Player>, i: nat, p: Player)
    requires i < |ps| && p.id == ps[i].id
    ensures Kick(ps[i := p], i) == Kick(ps, i)
  {
  }

  lemma ActSame(p: Player, a: Action)
    ensures Act(p, a).id == p.id
  {
  }

  /** How many of the first j players passed. */
  function Rank(vs: seq<bool>, j: nat): (r: nat)
    requires j <= |vs|
    ensures r <= j
  {
    if j == 0 then 0 else Rank(vs, j - 1) + if vs[j - 1] then 1 else 0
  }

  /** The players after the pass has given a verdict on the first |vs| of them;
      the next one to visit is at index Rank(vs, |vs|). */
  function Sweep(ps: seq<Player>, vs: seq<bool>, a: Action): (r: seq<Player>)
    requires |vs| <= |ps|
    ensures |r| == Rank(vs, |vs|) + |ps| - |vs|
    decreases |vs|
  {
    if vs == [] then ps
    else
      var before := vs[..|vs| - 1];
      RankPrefix(vs, |vs| - 1, |vs| - 1);
      var (r, i) := (Sweep(ps, before, a), Rank(before, |before|));
      if vs[|vs| - 1] then r[i := Act(r[i], a)] else Kick(r, i)
  }

  lemma RankPrefix(vs: seq<bool>, n: nat, j: nat)
    requires j <= n <= |vs|
    ensures Rank(vs[..n], j) == Rank(vs, j)
  {
    if j == 0 {
    } else {
      RankPrefix(vs, n, j - 1);
    }
  }

  /** The leave packets of the players from lo to hi that were kicked, in order. */
  function Leaves(ps: seq<Player>, vs: seq<bool>, lo: nat, hi: nat): seq<Msg>
    requires hi <= |vs| <= |ps|
    decreases hi - lo
  {
    if lo >= hi then [] else Leaves(ps, vs, lo, hi - 1) + if vs[hi - 1] then [] else [Leave(ps[hi - 1].id)]
  }

  lemma {:induction false} LeavesPrefix(ps: seq<Player>, vs: seq<bool>, n: nat, lo: nat, hi: nat)
    requires hi <= n <= |vs| <= |ps|
    ensures Leaves(ps, vs[..n], lo, hi) == Leaves(ps, vs, lo, hi)
    decreases hi - lo
  {
    if lo >= hi {
    } else {
      LeavesPrefix(ps, vs, n, lo, hi - 1);
    }
  }

  /** One more verdict does not change which leaves came before the earlier turns. */
  lemma LeavesKnown(ps: seq<Player>, vs: seq<bool>, v: bool)
    requires |vs| < |ps|
    ensures forall j | 0 <= j <= |vs| :: Leaves(ps, vs + [v], 0, j) == Leaves(ps, vs, 0, j)
  {
    forall j | 0 <= j <= |vs| ensures Leaves(ps, vs + [v], 0, j) == Leaves(ps, vs, 0, j) {
      LeavesPrefix(ps, vs + [v], |vs|, 0, j);
      assert (vs + [v])[..|vs|] == vs;
    }
  }

  /** Player j after the pass has given its first n verdicts: before its own turn it has been
      told of every earlier kick; after it, of every later one as well. */
  function Visited(ps: seq<Player>, vs: seq<bool>, a: Action, j: nat): Player
    requires j < |ps| && |vs| <= |ps|
  {
    if j < |vs| then Act(ps[j].PushSeq(Leaves(ps, vs, 0, j)), a).PushSeq(Leaves(ps, vs, j + 1, |vs|))
    else ps[j].PushSeq(Leaves(ps, vs, 0, |vs|))
  }

  lemma VisitedSame(ps: seq<Player>, vs: seq<bool>, a: Action, j: nat)
    requires j < |ps| && |vs| <= |ps|
    ensures var p := Visited(ps, vs, a, j); p.id == ps[j].id && p.team == ps[j].team && p.seen == ps[j].seen
  {
  }

  /** Where player j stands after the first |vs| verdicts, unless it was kicked. */
  function Place(vs: seq<bool>, j: nat): nat {
    if j < |vs| then Rank(vs, j) else Rank(vs, |vs|) + j - |vs|
  }

  lemma {:induction false} RankMonotone(vs: seq<bool>, i: nat, j: nat)
    requires i < j <= |vs|
    ensures Rank(vs, i) <= Rank(vs, j) && (vs[i] ==> Rank(vs, i) < Rank(vs, j))
    decreases j - i
  {
    if i + 1 >= j {
    } else {
      RankMonotone(vs, i + 1, j);
    }
  }

  lemma SweepStep(ps: seq<Player>, vs: seq<bool>, a: Action)
    requires vs != [] && |vs| <= |ps|
    ensures var n := |vs| - 1; var i := Rank(vs, n);
            && |Sweep(ps, vs[..n], a)| > i
            && Sweep(ps, vs, a) == if vs[n] then Sweep(ps, vs[..n], a)[i := Act(Sweep(ps, vs[..n], a)[i], a)]
                                   else Kick(Sweep(ps, vs[..n], a), i)
  {
    hide Kick, Act;
    RankPrefix(vs, |vs| - 1, |vs| - 1);
  }

  lemma SweepNone(ps: seq<Player>, a: Action)
    ensures Sweep(ps, [], a) == ps && Rank([], 0) == 0
  {
  }

  /** The pass takes one more verdict. */
  lemma SweepNext(ps: seq<Player>, vs: seq<bool>, v: bool, a: Action)
    requires |vs| < |ps|
    ensures var r, i := Sweep(ps, vs, a), Rank(vs, |vs|);
            && i < |r| && Rank(vs + [v], |vs| + 1) == i + (if v then 1 else 0)
            && Sweep(ps, vs + [v], a) == if v then r[i := Act(r[i], a)] else Kick(r, i)
  {
    assert (vs + [v])[..|vs|] == vs;
    SweepStep(ps, vs + [v], a);
    RankPrefix(vs + [v], |vs|, |vs|);
  }

  lemma PushMore(p: Player, ms: seq<Msg>, m: Msg)
    ensures p.PushSeq(ms + [m]) == p.PushSeq(ms).Push(m)
    ensures p.PushSeq(ms + []) == p.PushSeq(ms) && p.PushSeq([]) == p
  {
    assert p.stream + (ms + [m]) == p.stream + ms + [m];
    assert ms + [] == ms && p.stream + [] == p.stream;
  }

  lemma VisitedStep(ps: seq<Player>, vs: seq<bool>, a: Action, j: nat)
    requires vs != [] && |vs| <= |ps| && j < |ps|
    ensures var n := |vs| - 1;
            var was := Visited(ps, vs[..n], a, j);
            Visited(ps, vs, a, j) == if j == n then Act(was, a) else if vs[n] then was else was.Push(Leave(ps[n].id))
  {
    var n := |vs| - 1;
    hide Player.PushSeq, Player.Push, Act;
    LeavesPrefix(ps, vs, n, 0, if j < n then j else n);
    if j < n {
      LeavesPrefix(ps, vs, n, j + 1, n);
      PushMore(Act(ps[j].PushSeq(Leaves(ps, vs, 0, j)), a), Leaves(ps, vs, j + 1, n), Leave(ps[n].id));
    } else if j == n {
      PushMore(Act(ps[j].PushSeq(Leaves(ps, vs, 0, j)), a), [], Shutdown);
    } else {
      PushMore(ps[j], Leaves(ps, vs, 0, n), Leave(ps[n].id));
    }
  }

  /** Every player that was not kicked is where the order of the survivors puts it, as Visited says. */
  lemma {:induction false} SweepSurvivor(ps: seq<Player>, vs: seq<bool>, a: Action, j: nat)
    requires |vs| <= |ps| && j < |ps| && (j < |vs| ==> vs[j])
    ensures Place(vs, j) < |Sweep(ps, vs, a)| && Sweep(ps, vs, a)[Place(vs, j)] == Visited(ps, vs, a, j)
    decreases |vs|
  {
    if vs == [] {
      assert ps[j].stream + [] == ps[j].stream;
    } else {
      var n := |vs| - 1;
      hide Visited, Sweep, Place;
      SweepSurvivor(ps, vs[..n], a, j);
      SweepSurvivor(ps, vs[..n], a, n);
      if vs[n] {
        SurvivorPassed(ps, vs, a, j);
      } else {
        SurvivorKicked(ps, vs, a, j);
      }
    }
  }

  /** The last verdict lets a player pass: it is acted upon, and the others are left alone. */
  lemma SurvivorPassed(ps: seq<Player>, vs: seq<bool>, a: Action, j: nat)
    requires vs != [] && |vs| <= |ps| && j < |ps| && vs[|vs| - 1] && (j < |vs| ==> vs[j])
    requires var n := |vs| - 1; var was := Sweep(ps, vs[..n], a);
             Place(vs[..n], j) < |was| && was[Place(vs[..n], j)] == Visited(ps, vs[..n], a, j)
    ensures Place(vs, j) < |Sweep(ps, vs, a)| && Sweep(ps, vs, a)[Place(vs, j)] == Visited(ps, vs, a, j)
  {
    hide Visited, Sweep, Kick, Act, Leaves, Place, Rank, Player.Push, Player.PushSeq;
    SweepStep(ps, vs, a);
    VisitedStep(ps, vs, a, j);
    PlaceStep(vs, j);
  }

  /** The last verdict kicks a player: the others are told. */
  lemma SurvivorKicked(ps: seq<Player>, vs: seq<bool>, a: Action, j: nat)
    requires vs != [] && |vs| <= |ps| && j < |ps| && !vs[|vs| - 1] && (j < |vs| ==> vs[j])
    requires var n := |vs| - 1; var was := Sweep(ps, vs[..n], a);
             && Place(vs[..n], j) < |was| && was[Place(vs[..n], j)] == Visited(ps, vs[..n], a, j)
             && Place(vs[..n], n) < |was| && was[Place(vs[..n], n)] == Visited(ps, vs[..n], a, n)
    ensures Place(vs, j) < |Sweep(ps, vs, a)| && Sweep(ps, vs, a)[Place(vs, j)] == Visited(ps, vs, a, j)
  {
    hide Visited, Sweep, Kick, Act, Leaves, Place, Rank, Player.Push, Player.PushSeq;
    var n := |vs| - 1;
    SweepStep(ps, vs, a);
    VisitedStep(ps, vs, a, j);
    VisitedSame(ps, vs[..n], a, n);
    PlaceStep(vs, j);
    PlaceStep(vs, n);
    KickAt(Sweep(ps, vs[..n], a), Rank(vs, n), Place(vs[..n], j));
  }

  /** The next verdict moves a survivor's place only when it kicks a player before it. */
  lemma PlaceStep(vs: seq<bool>, j: nat)
    requires vs != [] && (j < |vs| - 1 ==> vs[j])
    ensures var n := |vs| - 1; var was, i := Place(vs[..n], j), Rank(vs, n);
            && (was == i <==> j == n)
            && (vs[n] ==> Place(vs, j) == was)
            && (!vs[n] && j != n ==> Place(vs, j) == if was < i then was else was - 1)
  {
    var n := |vs| - 1;
    RankPrefix(vs, n, n);
    if j < n {
      RankPrefix(vs, n, j);
      RankMonotone(vs, j, n);
    }
  }

  lemma {:induction false} SurvivorAt(vs: seq<bool>, r: nat, n: nat) returns (j: nat)
    requires n <= |vs| && r < Rank(vs, n)
    ensures j < n && vs[j] && Rank(vs, j) == r
  {
    if vs[n - 1] && Rank(vs, n - 1) == r {
      j := n - 1;
    } else {
      j := SurvivorAt(vs, r, n - 1);
    }
  }

  // ----- What a stream says about one player -----

  predicate IsAbout(m: Msg, x: nat) { (m.Join? || m.Leave?) && m.id == x }

  function About(ms: seq<Msg>, x: nat): seq<Msg> {
    if ms == [] then []
    else About(ms[..|ms| - 1], x) + if IsAbout(ms[|ms| - 1], x) then [ms[|ms| - 1]] else []
  }

  lemma {:induction false} AboutConcat(a: seq<Msg>, b: seq<Msg>, x: nat)
    ensures About(a + b, x) == About(a, x) + About(b, x)
    decreases |b|
  {
    if b == [] {
      assert a + b == a;
    } else {
      AboutConcat(a, b[..|b| - 1], x);
      assert (a + b)[..|a + b| - 1] == a + b[..|b| - 1];
    }
  }

  lemma AboutNothing(x: nat)
    ensures About([], x) == []
  {
  }

  lemma AboutOne(m: Msg, x: nat)
    ensures About([m], x) == if IsAbout(m, x) then [m] else []
  {
    assert [m][..0] == [];
  }

  ghost predicate Present(ps: seq<Player>, x: nat) {
    exists i | 0 <= i < |ps| :: ps[i].id == x
  }

  ghost predicate KickedIn(ps: seq<Player>, vs: seq<bool>, lo: nat, hi: nat, x: nat)
    requires hi <= |vs| <= |ps|
  {
    exists k | lo <= k < hi :: !vs[k] && ps[k].id == x
  }

  ghost predicate Increasing(ps: seq<Player>) {
    forall i, j | 0 <= i < j < |ps| :: ps[i].id < ps[j].id
  }

  lemma {:induction false} AboutLeaves(ps: seq<Player>, vs: seq<bool>, lo: nat, hi: nat, x: nat)
    requires hi <= |vs| <= |ps| && Increasing(ps)
    ensures About(Leaves(ps, vs, lo, hi), x) == if KickedIn(ps, vs, lo, hi, x) then [Leave(x)] else []
    decreases hi - lo
  {
    if lo >= hi {
      AboutNothing(x);
    } else {
      var front, last := Leaves(ps, vs, lo, hi - 1), if vs[hi - 1] then [] else [Leave(ps[hi - 1].id)];
      assert Leaves(ps, vs, lo, hi) == front + last;
      hide Leaves, KickedIn, Increasing;
      AboutLeaves(ps, vs, lo, hi - 1, x);
      KickedLast(ps, vs, lo, hi, x);
      hide About;
      AboutNothing(x);
      AboutConcat(front, last, x);
      AboutOne(Leave(ps[hi - 1].id), x);
    }
  }

  /** x is kicked at the last position or before, but not both, as ids differ. */
  lemma KickedLast(ps: seq<Player>, vs: seq<bool>, lo: nat, hi: nat, x: nat)
    requires lo < hi <= |vs| <= |ps| && Increasing(ps)
    ensures KickedIn(ps, vs, lo, hi, x) <==> KickedIn(ps, vs, lo, hi - 1, x) || (!vs[hi - 1] && ps[hi - 1].id == x)
    ensures !(KickedIn(ps, vs, lo, hi - 1, x) && ps[hi - 1].id == x)
  {
  }

  /** What a whole pass adds to a survivor's stream about x. */
  lemma AboutVisited(ps: seq<Player>, vs: seq<bool>, a: Action, j: nat, x: nat)
    requires |vs| == |ps| && j < |ps| && vs[j] && Increasing(ps)
    ensures About(Visited(ps, vs, a, j).stream, x) ==
            About(ps[j].stream, x)
            + (if KickedIn(ps, vs, 0, |ps|, x) && x < ps[j].id then [Leave(x)] else [])
            + (if a.Post? then About([a.m], x) else [])
            + (if KickedIn(ps, vs, 0, |ps|, x) && x > ps[j].id then [Leave(x)] else [])
  {
    var s, before, after := ps[j].stream, Leaves(ps, vs, 0, j), Leaves(ps, vs, j + 1, |ps|);
    AboutLeaves(ps, vs, 0, j, x);
    AboutLeaves(ps, vs, j + 1, |ps|, x);
    AboutConcat(s, before, x);
    var mid := if a.Post? then [a.m] else [];
    assert s + before + [] == s + before && About([], x) == [];
    AboutConcat(s + before, mid, x);
    AboutConcat(s + before + mid, after, x);
    KickedSplit(ps, vs, j, x);
  }

  lemma KickedSplit(ps: seq<Player>, vs: seq<bool>, j: nat, x: nat)
    requires |vs| == |ps| && j < |ps| && vs[j] && Increasing(ps)
    ensures KickedIn(ps, vs, 0, j, x) <==> KickedIn(ps, vs, 0, |ps|, x) && x < ps[j].id
    ensures KickedIn(ps, vs, j + 1, |ps|, x) <==> KickedIn(ps, vs, 0, |ps|, x) && x > ps[j].id
  {
    if k :| 0 <= k < |ps| && !vs[k] && ps[k].id == x {
      assert k != j;
    }
  }

  // ----- The lobby -----

  /** teams records everyone who was ever added; departed counts those removed again. */
  datatype Lobby = Lobby(players: seq<Player>, issued: nat, teams: map<nat, Team>, departed: nat)

  const EMPTY := Lobby([], 0, map[], 0)

  function Count(ps: seq<Player>, t: Team): nat {
    if ps == [] then 0 else Count(ps[..|ps| - 1], t) + if ps[|ps| - 1].team == t then 1 else 0
  }

  /** The smaller team gets the next player, the mercenaries when there is a tie. */
  function TeamForNextPlayer(ps: seq<Player>): Team {
    if Count(ps, Merc) > Count(ps, Spy) then Spy else Merc
  }

  ghost function Ids(ps: seq<Player>): set<nat> {
    set i | 0 <= i < |ps| :: ps[i].id
  }

  /** A pass with one verdict for each player. */
  function Pass(l: Lobby, vs: seq<bool>, a: Action): Lobby
    requires |vs| == |l.players|
  {
    var ps := Sweep(l.players, vs, a);
    l.(players := ps, departed := l.departed + (|l.players| - |ps|))
  }

  /** How a new connection behaves: whether it presents a join request, whether the answer can
      be sent, and which players the announcement still reaches. */
  datatype Connection = Connection(asksToJoin: bool, answerSent: bool, reached: seq<bool>)

  ghost function Accept(l: Lobby, c: Connection): Lobby
    requires c.asksToJoin && c.answerSent ==> |c.reached| == |l.players|
  {
    if !c.asksToJoin then l
    else
      var id, team := l.issued + 1, TeamForNextPlayer(l.players);
      if !c.answerSent then l.(issued := id)
      else
        var told := Pass(l, c.reached, Post(Join(id, team)));
        told.(players := told.players + [Player(id, team, [], 0, Ids(told.players))], issued := id,
              teams := told.teams[id := team])
  }

  datatype Event = NewConnection(c: Connection) | FlushQueues(vs: seq<bool>) | AnnounceShutdown(vs: seq<bool>)

  predicate Possible(l: Lobby, e: Event) {
    match e
    case NewConnection(c) => |l.players| < MAX_PLAYERS && c.asksToJoin && c.answerSent ==> |c.reached| == |l.players|
    case FlushQueues(vs) => |vs| == |l.players|
    case AnnounceShutdown(vs) => |vs| == |l.players|
  }

  ghost function Step(l: Lobby, e: Event): Lobby
    requires Possible(l, e)
  {
    match e
    case NewConnection(c) => if |l.players| < MAX_PLAYERS then Accept(l, c) else l
    case FlushQueues(vs) => Pass(l, vs, Flush)
    case AnnounceShutdown(vs) => Pass(l, vs, Post(Shutdown))
  }

  // ----- What every reachable lobby satisfies -----

  /** Everything c's stream should say about player x: one leave for a player it saw, one join
      for a player added later, with one leave after it once that player is gone. */
  function Expected(present: bool, teams: map<nat, Team>, c: Player, x: nat): seq<Msg> {
    var left := if present then [] else [Leave(x)];
    if x in c.seen then left
    else if x > c.id && x in teams then [Join(x, teams[x])] + left
    else []
  }

  ghost predicate Known(l: Lobby, c: Player) {
    && c.id in l.teams && l.teams[c.id] == c.team
    && (forall x | x in c.seen :: x in l.teams && x < c.id)
    && (forall i | 0 <= i < |l.players| :: l.players[i].id in c.seen || l.players[i].id >= c.id)
    && (forall x: nat :: About(c.stream, x) == Expected(Present(l.players, x), l.teams, c, x))
  }

  ghost predicate Inv(l: Lobby) {
    && |l.players| <= MAX_PLAYERS
    && Increasing(l.players)
    && (forall x | x in l.teams :: 0 < x <= l.issued)
    && (forall i | 0 <= i < |l.players| :: Known(l, l.players[i]))
    && |l.teams| == |l.players| + l.departed
    && Balanced(l)
  }

  ghost predicate Balanced(l: Lobby) {
    var d := Count(l.players, Merc) - Count(l.players, Spy);
    -(l.departed + 1) <= d <= l.departed + 1 && (l.departed == 0 ==> 0 <= d <= 1)
  }

  lemma PassSurvivor(ps: seq<Player>, vs: seq<bool>, a: Action, r: nat) returns (j: nat)
    requires |vs| == |ps| && r < |Sweep(ps, vs, a)|
    ensures j < |ps| && vs[j] && Rank(vs, j) == r && Sweep(ps, vs, a)[r] == Visited(ps, vs, a, j)
  {
    j := SurvivorAt(vs, r, |vs|);
    SweepSurvivor(ps, vs, a, j);
  }

  lemma PassIncreasing(ps: seq<Player>, vs: seq<bool>, a: Action)
    requires |vs| == |ps| && Increasing(ps)
    ensures Increasing(Sweep(ps, vs, a))
  {
    hide Sweep, Visited;
    var s := Sweep(ps, vs, a);
    forall r, r' | 0 <= r < r' < |s| ensures s[r].id < s[r'].id {
      var j := PassSurvivor(ps, vs, a, r);
      var j' := PassSurvivor(ps, vs, a, r');
      VisitedSame(ps, vs, a, j);
      VisitedSame(ps, vs, a, j');
      if j' < j {
        RankMonotone(vs, j', j);
      }
    }
  }

  lemma PassPresent(ps: seq<Player>, vs: seq<bool>, a: Action, x: nat)
    requires |vs| == |ps| && Increasing(ps)
    ensures Present(Sweep(ps, vs, a), x) <==> Present(ps, x) && !KickedIn(ps, vs, 0, |ps|, x)
  {
    hide Sweep, Visited;
    var s := Sweep(ps, vs, a);
    if r :| 0 <= r < |s| && s[r].id == x {
      var j := PassSurvivor(ps, vs, a, r);
      VisitedSame(ps, vs, a, j);
      assert ps[j].id == x;
    }
    if j :| 0 <= j < |ps| && ps[j].id == x && !KickedIn(ps, vs, 0, |ps|, x) {
      SweepSurvivor(ps, vs, a, j);
      VisitedSame(ps, vs, a, j);
      assert s[Place(vs, j)].id == x;
    }
  }

  /** A pass keeps every survivor's stream in step with who is present. */
  lemma PassStream(l: Lobby, vs: seq<bool>, a: Action, j: nat, x: nat)
    requires Inv(l) && |vs| == |l.players| && j < |vs| && vs[j]
    requires a.Post? ==> !IsAbout(a.m, x)
    ensures About(Visited(l.players, vs, a, j).stream, x) ==
            Expected(Present(Sweep(l.players, vs, a), x), l.teams, l.players[j], x)
  {
    hide Sweep, Visited, About, Balanced, IsAbout;
    var c := l.players[j];
    assert Known(l, c);
    PassPresent(l.players, vs, a, x);
    AboutVisited(l.players, vs, a, j, x);
    if a.Post? {
      AboutOne(a.m, x);
    }
    if k :| 0 <= k < |vs| && !vs[k] && l.players[k].id == x {
      assert Known(l, l.players[k]) && Present(l.players, x) && KickedIn(l.players, vs, 0, |vs|, x);
      assert x != c.id;
    }
  }

  lemma {:induction false} CountAll(ps: seq<Player>)
    ensures Count(ps, Merc) + Count(ps, Spy) == |ps|
  {
    if ps == [] {
    } else {
      CountAll(ps[..|ps| - 1]);
    }
  }

  lemma {:induction false} CountConcat(a: seq<Player>, b: seq<Player>, t: Team)
    ensures Count(a + b, t) == Count(a, t) + Count(b, t)
    decreases |b|
  {
    if b == [] {
      assert a + b == a;
    } else {
      CountConcat(a, b[..|b| - 1], t);
      assert (a + b)[..|a + b| - 1] == a + b[..|b| - 1];
    }
  }

  lemma {:induction false} CountSame(a: seq<Player>, b: seq<Player>, t: Team)
    requires |a| == |b| && forall k | 0 <= k < |a| :: a[k].team == b[k].team
    ensures Count(a, t) == Count(b, t)
  {
    if a == [] {
    } else {
      CountSame(a[..|a| - 1], b[..|b| - 1], t);
    }
  }

  lemma CountOne(p: Player, t: Team)
    ensures Count([p], t) == if p.team == t then 1 else 0
  {
    assert [p][..0] == [];
  }

  lemma CountWithout(ps: seq<Player>, i: nat, t: Team)
    requires i < |ps|
    ensures Count(Kick(ps, i), t) == Count(ps, t) - if ps[i].team == t then 1 else 0
  {
    hide Count;
    var a, b := ps[..i], ps[i + 1..];
    assert ps == a + ([ps[i]] + b);
    CountConcat(a, [ps[i]] + b, t);
    CountConcat([ps[i]], b, t);
    CountOne(ps[i], t);
    CountConcat(a, b, t);
    forall k | 0 <= k < |ps| - 1 ensures Kick(ps, i)[k].team == (a + b)[k].team {
      KickAt(ps, i, if k < i then k else k + 1);
    }
    CountSame(Kick(ps, i), a + b, t);
  }

  /** A pass takes from each team exactly the players it kicked. */
  lemma {:induction false} PassCount(ps: seq<Player>, vs: seq<bool>, a: Action)
    requires |vs| <= |ps|
    ensures var s := Sweep(ps, vs, a);
            Count(s, Merc) <= Count(ps, Merc) && Count(s, Spy) <= Count(ps, Spy) && |s| <= |ps|
    decreases |vs|
  {
    if vs != [] {
      hide Sweep;
      var n := |vs| - 1;
      SweepStep(ps, vs, a);
      PassCount(ps, vs[..n], a);
      var r, i := Sweep(ps, vs[..n], a), Rank(vs, n);
      if vs[n] {
        CountSame(r[i := Act(r[i], a)], r, Merc);
        CountSame(r[i := Act(r[i], a)], r, Spy);
      } else {
        CountWithout(r, i, Merc);
        CountWithout(r, i, Spy);
      }
    } else {
      assert Sweep(ps, vs, a) == ps;
    }
  }

  lemma PassBalanced(l: Lobby, vs: seq<bool>, a: Action)
    requires Balanced(l) && |vs| == |l.players|
    ensures Balanced(Pass(l, vs, a)) && l.departed <= Pass(l, vs, a).departed
  {
    hide Sweep;
    PassCount(l.players, vs, a);
    CountAll(l.players);
    CountAll(Sweep(l.players, vs, a));
    if Pass(l, vs, a).departed == 0 {
      assert Count(Sweep(l.players, vs, a), Merc) == Count(l.players, Merc);
    }
  }

  /** A pass that announces nobody keeps the invariant. */
  lemma PassKeeps(l: Lobby, vs: seq<bool>, a: Action)
    requires Inv(l) && |vs| == |l.players| && (a.Post? ==> a.m.Shutdown?)
    ensures Inv(Pass(l, vs, a))
  {
    var l' := Pass(l, vs, a);
    PassIncreasing(l.players, vs, a);
    PassBalanced(l, vs, a);
    forall r | 0 <= r < |l'.players| ensures Known(l', l'.players[r]) {
      PassKnown(l, vs, a, r);
      forall x: nat
        ensures About(l'.players[r].stream, x) == Expected(Present(l'.players, x), l'.teams, l'.players[r], x)
      {
        var j := PassSurvivor(l.players, vs, a, r);
        PassStream(l, vs, a, j, x);
        VisitedSame(l.players, vs, a, j);
      }
    }
  }

  /** What does not depend on the stream. */
  lemma PassKnown(l: Lobby, vs: seq<bool>, a: Action, r: nat)
    requires Inv(l) && |vs| == |l.players| && r < |Sweep(l.players, vs, a)|
    ensures var ps := Sweep(l.players, vs, a); var c := ps[r];
            && c.id in l.teams && l.teams[c.id] == c.team && c.id <= l.issued
            && (forall x | x in c.seen :: x in l.teams && x < c.id)
            && (forall i | 0 <= i < |ps| :: ps[i].id in c.seen || ps[i].id >= c.id)
  {
    hide Sweep, Visited;
    var j := PassSurvivor(l.players, vs, a, r);
    VisitedSame(l.players, vs, a, j);
    var ps := Sweep(l.players, vs, a);
    assert Known(l, l.players[j]);
    forall i | 0 <= i < |ps| ensures ps[i].id in ps[r].seen || ps[i].id >= ps[r].id {
      var k := PassSurvivor(l.players, vs, a, i);
      VisitedSame(l.players, vs, a, k);
    }
  }

  /** A connection that becomes a player. */
  ghost predicate Joins(l: Lobby, c: Connection) {
    |l.players| < MAX_PLAYERS && c.asksToJoin && c.answerSent && |c.reached| == |l.players|
  }

  lemma AcceptBalanced(l: Lobby, c: Connection)
    requires Inv(l) && Joins(l, c)
    ensures Balanced(Accept(l, c))
  {
    hide Sweep, Count, Known, Ids;
    var id, team := l.issued + 1, TeamForNextPlayer(l.players);
    var a := Post(Join(id, team));
    var told := Pass(l, c.reached, a);
    var added := Player(id, team, [], 0, Ids(told.players));
    PassBalanced(l, c.reached, a);
    PassCount(l.players, c.reached, a);
    CountAll(l.players);
    CountAll(told.players);
    CountConcat(told.players, [added], Merc);
    CountConcat(told.players, [added], Spy);
    CountOne(added, Merc);
    CountOne(added, Spy);
  }

  /** Everyone ever added is present or has departed. */
  lemma AcceptConserves(l: Lobby, c: Connection)
    requires Inv(l) && Joins(l, c)
    ensures var l' := Accept(l, c); |l'.teams| == |l'.players| + l'.departed
  {
    hide Sweep, Known, TeamForNextPlayer;
    var id := l.issued + 1;
    assert id !in l.teams && Accept(l, c).teams.Keys == l.teams.Keys + {id};
    PassCount(l.players, c.reached, Post(Join(id, TeamForNextPlayer(l.players))));
  }

  lemma AcceptKeeps(l: Lobby, c: Connection)
    requires Inv(l) && Joins(l, c)
    ensures Inv(Accept(l, c))
  {
    hide Sweep, Visited, Balanced, Known, Count;
    var id, team := l.issued + 1, TeamForNextPlayer(l.players);
    var a := Post(Join(id, team));
    var told := Pass(l, c.reached, a);
    var l' := Accept(l, c);
    var added := Player(id, team, [], 0, Ids(told.players));
    AcceptBalanced(l, c);
    AcceptConserves(l, c);
    PassIncreasing(l.players, c.reached, a);
    forall r | 0 <= r < |told.players|
      ensures Known(l', told.players[r]) && told.players[r].id < id && told.players[r].id in l'.teams
    {
      ToldKnown(l, c, r);
      PassKnown(l, c.reached, a, r);
    }
    AddedKnown(l', told.players, added);
  }

  /** A new player's stream is empty, which is what it should be. */
  lemma AddedKnown(l: Lobby, told: seq<Player>, p: Player)
    requires l.players == told + [p] && p.stream == [] && p.seen == Ids(told)
    requires p.id in l.teams && l.teams[p.id] == p.team
    requires forall x | x in l.teams :: x <= p.id
    requires forall i | 0 <= i < |told| :: told[i].id in l.teams && told[i].id < p.id
    ensures Known(l, p)
  {
    assert l.players[|told|] == p && forall i | 0 <= i < |told| :: l.players[i] == told[i];
    forall x: nat ensures About(p.stream, x) == Expected(Present(l.players, x), l.teams, p, x) {
      if x in p.seen {
        var i :| 0 <= i < |told| && told[i].id == x;
        assert l.players[i].id == x;
      }
    }
  }

  lemma PresentAdded(ps: seq<Player>, p: Player, x: nat)
    ensures Present(ps + [p], x) <==> Present(ps, x) || x == p.id
  {
    if i :| 0 <= i < |ps| && ps[i].id == x {
      assert (ps + [p])[i].id == x;
    }
    assert (ps + [p])[|ps|].id == p.id;
  }

  /** A player that the announcement reached knows of the new player. */
  lemma ToldKnown(l: Lobby, c: Connection, r: nat)
    requires Inv(l) && Joins(l, c)
    requires r < |Accept(l, c).players| - 1
    ensures Known(Accept(l, c), Accept(l, c).players[r])
  {
    hide Sweep, Visited, About, Balanced, TeamForNextPlayer;
    var id, team := l.issued + 1, TeamForNextPlayer(l.players);
    var a := Post(Join(id, team));
    var l' := Accept(l, c);
    var ps := Sweep(l.players, c.reached, a);
    PassKnown(l, c.reached, a, r);
    var j := PassSurvivor(l.players, c.reached, a, r);
    VisitedSame(l.players, c.reached, a, j);
    assert Known(l, l.players[j]);
    forall x: nat ensures About(ps[r].stream, x) == Expected(Present(l'.players, x), l'.teams, ps[r], x) {
      PresentAdded(ps, l'.players[|ps|], x);
      if x == id {
        AboutVisited(l.players, c.reached, a, j, x);
        AboutOne(Join(id, team), x);
        assert !KickedIn(l.players, c.reached, 0, |l.players|, x);
      } else {
        PassStream(l, c.reached, a, j, x);
      }
    }
  }

  lemma StepKeeps(l: Lobby, e: Event)
    requires Inv(l) && Possible(l, e)
    ensures Inv(Step(l, e))
  {
    match e {
      case NewConnection(c) =>
        if |l.players| < MAX_PLAYERS && c.asksToJoin {
          if c.answerSent {
            AcceptKeeps(l, c);
          } else {
            assert forall i | 0 <= i < |l.players| :: Known(l, l.players[i]);
          }
        }
      case FlushQueues(vs) => PassKeeps(l, vs, Flush);
      case AnnounceShutdown(vs) => PassKeeps(l, vs, Post(Shutdown));
    }
  }

  /** A flush and a shutdown announcement are passes over the players. */
  lemma PassStep(l: Lobby, vs: seq<bool>)
    requires |vs| == |l.players|
    ensures var e := FlushQueues(vs);
            Possible(l, e) && Step(l, e).players == Sweep(l.players, vs, Flush) && Step(l, e).issued == l.issued
    ensures var e := AnnounceShutdown(vs);
            && Possible(l, e) && Step(l, e).players == Sweep(l.players, vs, Post(Shutdown))
            && Step(l, e).issued == l.issued
  {
    hide Sweep;
  }

  /** Connections that do not become players change at most the counter. */
  lemma RefusedStep(l: Lobby)
    requires |l.players| < MAX_PLAYERS
    ensures var e := NewConnection(Connection(false, false, [])); Possible(l, e) && Step(l, e) == l
    ensures var e := NewConnection(Connection(true, false, []));
            Possible(l, e) && Step(l, e) == l.(issued := l.issued + 1)
  {
  }

  /** A full lobby turns every connection away. */
  lemma FullStep(l: Lobby, e: Event)
    ensures e.NewConnection? && |l.players| >= MAX_PLAYERS ==> Possible(l, e) && Step(l, e) == l
  {
  }

  lemma JoinStep(l: Lobby, vs: seq<bool>)
    requires |l.players| < MAX_PLAYERS && |vs| == |l.players|
    ensures var e := NewConnection(Connection(true, true, vs));
            var id, team := l.issued + 1, TeamForNextPlayer(l.players);
            var told := Sweep(l.players, vs, Post(Join(id, team)));
            && Possible(l, e) && Step(l, e).issued == id
            && Step(l, e).players == told + [Player(id, team, [], 0, Ids(told))]
  {
    hide Sweep, Ids, Count, TeamForNextPlayer;
  }

  ghost predicate PossibleRun(l: Lobby, es: seq<Event>)
    decreases |es|
  {
    es != [] ==> Possible(l, es[0]) && PossibleRun(Step(l, es[0]), es[1..])
  }

  ghost function Run(l: Lobby, es: seq<Event>): Lobby
    requires PossibleRun(l, es)
    decreases |es|
  {
    if es == [] then l else Run(Step(l, es[0]), es[1..])
  }

  /** The invariant holds in every reachable lobby. */
  lemma {:induction false} RunKeeps(l: Lobby, es: seq<Event>)
    requires Inv(l) && PossibleRun(l, es)
    ensures Inv(Run(l, es))
    decreases |es|
  {
    if es == [] {
    } else {
      StepKeeps(l, es[0]);
      RunKeeps(Step(l, es[0]), es[1..]);
    }
  }

  /** Every lobby reached from the empty one satisfies the invariant. */
  lemma Reachable(es: seq<Event>)
    requires PossibleRun(EMPTY, es)
    ensures Inv(Run(EMPTY, es))
  {
    RunKeeps(EMPTY, es);
  }

  // ----- Consequences -----

  /** In a reachable lobby, what player i's stream says about x: one leave once a player seen at the start
      has gone; one join for a later player, with its team, followed by one leave once it has gone; else nothing. */
  lemma StreamsNetOut(es: seq<Event>, i: nat, x: nat)
    requires PossibleRun(EMPTY, es) && i < |Run(EMPTY, es).players|
    ensures var l := Run(EMPTY, es); var c := l.players[i]; var s := About(c.stream, x);
            && (Present(l.players, x) && x > c.id ==> x in l.teams && s == [Join(x, l.teams[x])])
            && (Present(l.players, x) && x <= c.id ==> s == [])
            && (!Present(l.players, x) && x in c.seen ==> s == [Leave(x)])
            && (!Present(l.players, x) && x > c.id && x in l.teams ==> s == [Join(x, l.teams[x]), Leave(x)])
            && (x !in c.seen && !(x > c.id && x in l.teams) ==> s == [])
  {
    Reachable(es);
    var l := Run(EMPTY, es);
    assert Known(l, l.players[i]);
    assert !Present(l.players, x) && x > l.players[i].id && x in l.teams ==>
             [Join(x, l.teams[x])] + [Leave(x)] == [Join(x, l.teams[x]), Leave(x)];
    if k :| 0 <= k < |l.players| && l.players[k].id == x {
      assert Known(l, l.players[k]);
      if x < l.players[i].id {
        assert x in l.players[i].seen;
      }
    }
  }

  /** With k departures the teams differ by at most k + 1; with none the mercenaries are the larger half. */
  lemma TeamsEven(es: seq<Event>)
    requires PossibleRun(EMPTY, es)
    ensures var l := Run(EMPTY, es); var m, s, n := Count(l.players, Merc), Count(l.players, Spy), |l.players|;
            && n <= 4 && m + s == n
            && -(l.departed + 1) <= m - s <= l.departed + 1
            && (l.departed == 0 ==> m == (n + 1) / 2 && s == n / 2)
  {
    Reachable(es);
    CountAll(Run(EMPTY, es).players);
  }

  const ID_RANGE: nat := 0x1_0000_0000

  /** Tickets identify players for good; as 32-bit ids they do so for the first 2^32 players. */
  lemma IdsDistinct(es: seq<Event>, x: nat, y: nat)
    requires PossibleRun(EMPTY, es)
    ensures var l := Run(EMPTY, es);
            && Increasing(l.players) && l.issued + 1 !in l.teams
            && (x in l.teams && y in l.teams && x != y && l.issued <= ID_RANGE ==> x % ID_RANGE != y % ID_RANGE)
  {
    Reachable(es);
  }

  /** A join request whose answer cannot be sent still uses up an id. */
  const UNANSWERED: Event := NewConnection(Connection(true, false, []))

  function Repeated(e: Event, n: nat): (es: seq<Event>)
    ensures |es| == n
  {
    if n == 0 then [] else [e] + Repeated(e, n - 1)
  }

  /** The events take the lobby from l to m. */
  ghost predicate Leads(l: Lobby, es: seq<Event>, m: Lobby) {
    PossibleRun(l, es) && Run(l, es) == m
  }

  lemma LeadsOne(l: Lobby, e: Event)
    requires Possible(l, e)
    ensures Leads(l, [e], Step(l, e))
  {
    hide Possible, Step;
    RunNone(l);
    RunAppend(l, [], e);
    assert [] + [e] == [e];
  }

  lemma {:induction false} LeadsThrough(l: Lobby, es: seq<Event>, m: Lobby, fs: seq<Event>, n: Lobby)
    requires Leads(l, es, m) && Leads(m, fs, n)
    ensures Leads(l, es + fs, n)
    decreases |es|
  {
    var all := es + fs;
    if es == [] {
      assert all == fs;
    } else {
      LeadsThrough(Step(l, es[0]), es[1..], m, fs, n);
      assert all[1..] == es[1..] + fs;
    }
  }

  lemma {:induction false} UnansweredLeads(l: Lobby, n: nat)
    requires |l.players| < MAX_PLAYERS
    ensures Leads(l, Repeated(UNANSWERED, n), l.(issued := l.issued + n))
    decreases n
  {
    if n == 0 {
    } else {
      var es := Repeated(UNANSWERED, n);
      RefusedStep(l);
      UnansweredLeads(l.(issued := l.issued + 1), n - 1);
      assert es[0] == UNANSWERED && es[1..] == Repeated(UNANSWERED, n - 1);
    }
  }

  /** A connection that becomes a player. */
  function Joining(reached: seq<bool>): Event { NewConnection(Connection(true, true, reached)) }

  /** The bound is sharp: a run in which the next id issued is the one of a player who is still there. */
  lemma IdsCollide() returns (es: seq<Event>)
    ensures PossibleRun(EMPTY, es)
    ensures var l := Run(EMPTY, es);
            && l.issued == ID_RANGE + 1 && |l.players| == 2 && l.players[0].id != l.players[1].id
            && l.players[0].id % ID_RANGE == l.players[1].id % ID_RANGE
  {
    hide Leads, Step, Possible, Repeated, Ids, TeamForNextPlayer, Sweep;
    var one := FirstJoin();
    LeadsOne(EMPTY, Joining([]));
    UnansweredLeads(one, ID_RANGE - 1);
    var many := one.(issued := ID_RANGE);
    var two := SecondJoin(many);
    LeadsOne(many, Joining([true]));
    var middle := Repeated(UNANSWERED, ID_RANGE - 1);
    LeadsThrough(EMPTY, [Joining([])], one, middle, many);
    LeadsThrough(EMPTY, [Joining([])] + middle, many, [Joining([true])], two);
    es := [Joining([])] + middle + [Joining([true])];
    LeadsMeans(EMPTY, es, two);
  }

  lemma LeadsMeans(l: Lobby, es: seq<Event>, m: Lobby)
    requires Leads(l, es, m)
    ensures PossibleRun(l, es) && Run(l, es) == m
  {
  }

  lemma FirstJoin() returns (one: Lobby)
    ensures Possible(EMPTY, Joining([])) && one == Step(EMPTY, Joining([]))
    ensures one.issued == 1 && |one.players| == 1 && one.players[0].id == 1
  {
    hide TeamForNextPlayer;
    SweepNone([], Post(Join(1, TeamForNextPlayer([]))));
    JoinStep(EMPTY, []);
    one := Step(EMPTY, Joining([]));
  }

  lemma SecondJoin(many: Lobby) returns (two: Lobby)
    requires |many.players| == 1
    ensures Possible(many, Joining([true])) && two == Step(many, Joining([true]))
    ensures two.issued == many.issued + 1 && |two.players| == 2
    ensures two.players[0].id == many.players[0].id && two.players[1].id == two.issued
  {
    hide TeamForNextPlayer;
    StayedFirst(many.players, Post(Join(many.issued + 1, TeamForNextPlayer(many.players))));
    JoinStep(many, [true]);
    two := Step(many, Joining([true]));
  }

  /** A single player that passes stays where it is. */
  lemma StayedFirst(ps: seq<Player>, a: Action)
    requires |ps| == 1
    ensures |Sweep(ps, [true], a)| == 1 && Sweep(ps, [true], a)[0].id == ps[0].id
  {
    SweepSurvivor(ps, [true], a, 0);
    VisitedSame(ps, [true], a, 0);
    assert Rank([true], 0) == 0 && [true][..0] == [];
    assert Rank([true], 1) == 1;
  }

  /** After a flush, what a surviving player has queued is the leave packets of the players
      kicked at later positions, in order. */
  lemma FlushLeavesQueued(ps: seq<Player>, vs: seq<bool>, j: nat)
    requires |vs| == |ps| && j < |ps| && vs[j]
    ensures Place(vs, j) < |Sweep(ps, vs, Flush)|
    ensures var p := Sweep(ps, vs, Flush)[Place(vs, j)];
            && p.flushed <= |p.stream|
            && p.stream[p.flushed..] == Leaves(ps, vs, j + 1, |vs|)
            && p.stream[..p.flushed] == ps[j].stream + Leaves(ps, vs, 0, j)
  {
    SweepSurvivor(ps, vs, Flush, j);
  }

  lemma RunNone(l: Lobby)
    ensures PossibleRun(l, []) && Run(l, []) == l
  {
  }

  lemma {:induction false} RunAppend(l: Lobby, es: seq<Event>, e: Event)
    requires PossibleRun(l, es) && Possible(Run(l, es), e)
    ensures PossibleRun(l, es + [e]) && Run(l, es + [e]) == Step(Run(l, es), e)
    decreases |es|
  {
    var all := es + [e];
    if es == [] {
      assert all[1..] == [];
    } else {
      RunAppend(Step(l, es[0]), es[1..], e);
      assert all[1..] == es[1..] + [e];
    }
  }
}

/** Which audio channels are heard (crates/rx11-client/src/audioout/table.rs,
    `OutletTable`; crates/rx11-client/src/serve/audio.rs, the open and deliver paths). */
module OutletTables {
  import opened Bytes

  /** `outlets` maps an open channel to whether its player is being fed. */
  datatype Table = Table(outlets: map<u32, bool>, appOf: map<u32, u32>, foreground: Option<u32>, perApplication: bool)

  function Fresh(perApplication: bool): Table { Table(map[], map[], None, perApplication) }

  /** The lowest-numbered channel carrying the tag. */
  ghost predicate IsFirst(appOf: map<u32, u32>, app: u32, id: u32) {
    && id in appOf && appOf[id] == app
    && forall j :: j in appOf && appOf[j] == app ==> id <= j
  }

  ghost predicate IsAudible(t: Table, id: u32) {
    if !t.perApplication then true
    else if id !in t.outlets then false
    else if id !in t.appOf then t.foreground == None
    else
      && (t.foreground.Some? ==> t.appOf[id] == t.foreground.value)
      && IsFirst(t.appOf, t.appOf[id], id)
  }

  ghost function Refresh(t: Table): Table {
    t.(outlets := map id | id in t.outlets :: IsAudible(t, id))
  }

  /** A channel that is already known is refused; a new player starts out fed. */
  ghost function Insert(t: Table, id: u32, app: Option<u32>): Table {
    if id in t.outlets then t
    else t.(outlets := t.outlets[id := true], appOf := if app.Some? then t.appOf[id := app.value] else t.appOf)
  }

  ghost function Remove(t: Table, id: u32): Table {
    t.(outlets := t.outlets - {id}, appOf := t.appOf - {id})
  }

  ghost function SetForeground(t: Table, connection: Option<u32>): Table {
    Refresh(t.(foreground := connection))
  }

  class OutletTable {
    var outlets: map<u32, bool>
    var appOf: map<u32, u32>
    var foreground: Option<u32>
    const perApplication: bool

    constructor (perApplication: bool)
      ensures View() == Fresh(perApplication)
    {
      outlets, appOf, foreground, this.perApplication := map[], map[], None, perApplication;
    }

    ghost function View(): Table
      reads this
    {
      Table(outlets, appOf, foreground, perApplication)
    }

    method InsertOutlet(id: u32, app: Option<u32>)
      modifies this
      ensures View() == Insert(old(View()), id, app)
    {
      if id in outlets {
        return;
      }
      if app.Some? {
        appOf := appOf[id := app.value];
      }
      outlets := outlets[id := true];
    }

    method RemoveOutlet(id: u32)
      modifies this
      ensures View() == Remove(old(View()), id)
    {
      outlets := outlets - {id};
      appOf := appOf - {id};
    }

    method IsFirstChannelOfApp(app: u32, id: u32) returns (first: bool)
      ensures first <==> IsFirst(appOf, app, id)
    {
      var lowest: Option<u32> := None;
      var left := appOf.Keys;
      while left != {}
        invariant left <= appOf.Keys
        invariant lowest.Some? ==> lowest.value in appOf && appOf[lowest.value] == app
        invariant forall j :: j in appOf.Keys - left && appOf[j] == app ==> lowest.Some? && lowest.value <= j
      {
        var j: u32 :| j in left;
        if appOf[j] == app && (lowest == None || j < lowest.value) {
          lowest := Some(j);
        }
        left := left - {j};
      }
      first := lowest == Some(id);
    }

    method IsAudibleNow(id: u32) returns (audible: bool)
      ensures audible <==> IsAudible(View(), id)
    {
      if !perApplication {
        return true;
      }
      if id !in outlets {
        return false;
      }
      if id !in appOf {
        return foreground.None?;
      }
      var app := appOf[id];
      audible := IsFirstChannelOfApp(app, id);
      audible := audible && (foreground.Some? ==> app == foreground.value);
    }

    method RefreshAudibility()
      modifies this`outlets
      ensures View() == Refresh(old(View()))
    {
      ghost var t := View();
      var left := outlets.Keys;
      while left != {}
        invariant t == old(View()) && left <= t.outlets.Keys
        invariant outlets.Keys == t.outlets.Keys
        invariant forall id :: id in t.outlets && id !in left ==> outlets[id] == IsAudible(t, id)
      {
        var id: u32 :| id in left;
        var audible := IsAudibleNow(id);
        SameRule(t, View(), id);
        outlets, left := outlets[id := audible], left - {id};
      }
      assert outlets == Refresh(t).outlets;
    }

    method SetForegroundTo(connection: Option<u32>)
      modifies this
      ensures View() == SetForeground(old(View()), connection)
    {
      foreground := connection;
      RefreshAudibility();
    }
  }

  /** The rule looks at which channels are open, not at which are fed. */
  lemma SameRule(a: Table, b: Table, id: u32)
    requires a.outlets.Keys == b.outlets.Keys && a.(outlets := b.outlets) == b
    ensures IsAudible(a, id) <==> IsAudible(b, id)
  {
    assert id in a.outlets <==> id in a.outlets.Keys;
    assert id in b.outlets <==> id in b.outlets.Keys;
  }

  // ---------------------------------------------------------------- sessions

  /** Opening is insert and refresh; a close, or a packet for a player that died,
      only removes. */
  datatype Event = Open(id: u32, app: Option<u32>) | Close(id: u32) | Foreground(connection: Option<u32>)

  ghost function Take(t: Table, e: Event): Table {
    match e
    case Open(id, app) => Refresh(Insert(t, id, app))
    case Close(id) => Remove(t, id)
    case Foreground(connection) => SetForeground(t, connection)
  }

  ghost function Run(perApplication: bool, events: seq<Event>): Table {
    if events == [] then Fresh(perApplication)
    else Take(Run(perApplication, events[..|events| - 1]), events[|events| - 1])
  }

  ghost predicate Fed(t: Table, id: u32) { id in t.outlets && t.outlets[id] }

  /** Whoever is fed is audible by the rule, and only open channels have tags. */
  ghost predicate Inv(t: Table) {
    && (forall id :: id in t.appOf ==> id in t.outlets)
    && (forall id :: Fed(t, id) ==> IsAudible(t, id))
  }

  /** Nobody audible is left unfed either. */
  ghost predicate Settled(t: Table) {
    forall id :: id in t.outlets ==> (Fed(t, id) <==> IsAudible(t, id))
  }

  lemma RefreshSettles(t: Table)
    requires forall id :: id in t.appOf ==> id in t.outlets
    ensures Inv(Refresh(t)) && Settled(Refresh(t))
  {
    forall id | id in t.outlets ensures IsAudible(Refresh(t), id) <==> IsAudible(t, id) {
      SameRule(t, Refresh(t), id);
    }
  }

  lemma RemoveKeeps(t: Table, id: u32)
    requires Inv(t)
    ensures Inv(Remove(t, id))
  {
    var u := Remove(t, id);
    forall j | Fed(u, j) ensures IsAudible(u, j) {
      assert Fed(t, j) && IsAudible(t, j);
    }
  }

  lemma {:induction false} RunKeeps(perApplication: bool, events: seq<Event>)
    ensures Inv(Run(perApplication, events)) && Run(perApplication, events).perApplication == perApplication
  {
    if events != [] {
      var t := Run(perApplication, events[..|events| - 1]);
      RunKeeps(perApplication, events[..|events| - 1]);
      match events[|events| - 1]
      case Open(id, app) => RefreshSettles(Insert(t, id, app));
      case Close(id) => RemoveKeeps(t, id);
      case Foreground(connection) => RefreshSettles(t.(foreground := connection));
    }
  }

  /** THE listening law. Over every run of opens, closes and foreground changes in
      per-application mode, a fed player is audible by the rule; so no application
      is heard twice, and a known foreground is the only one heard, never under the
      desktop mix. */
  lemma HeardOnce(events: seq<Event>, a: u32, b: u32)
    requires var t := Run(true, events); Fed(t, a) && Fed(t, b)
    ensures var t := Run(true, events);
            && IsAudible(t, a)
            && (a in t.appOf && b in t.appOf && t.appOf[a] == t.appOf[b] ==> a == b)
            && (t.foreground.Some? ==> a == b && a in t.appOf && t.appOf[a] == t.foreground.value)
            && (a in t.appOf ==> forall j :: j in t.outlets && j in t.appOf && t.appOf[j] == t.appOf[a] ==> a <= j)
  {
    hide Run;
    RunKeeps(true, events);
    assert IsAudible(Run(true, events), a) && IsAudible(Run(true, events), b);
  }

  /** Right after an open or a foreground change the rule is met both ways. */
  lemma SettledAfterRefresh(perApplication: bool, events: seq<Event>, e: Event)
    requires !e.Close?
    ensures Settled(Run(perApplication, events + [e]))
  {
    hide Inv, Settled, Refresh;
    var t := Run(perApplication, events);
    assert (events + [e])[..|events|] == events;
    RunKeeps(perApplication, events);
    match e
    case Open(id, app) => RefreshSettles(Insert(t, id, app));
    case Foreground(connection) => RefreshSettles(t.(foreground := connection));
  }

  /** A close keeps the rule met both ways exactly when the channel closed was not
      the one heard of an application with another channel open: then the
      application falls silent until the next open or foreground change. */
  lemma CloseSettledExactly(t: Table, id: u32)
    requires t.perApplication && Inv(t) && Settled(t)
    ensures Settled(Remove(t, id)) <==>
            !(id in t.appOf && IsAudible(t, id) && exists j :: j in t.appOf && j != id && t.appOf[j] == t.appOf[id])
  {
    var u := Remove(t, id);
    if id in t.appOf && IsAudible(t, id) && exists j :: j in t.appOf && j != id && t.appOf[j] == t.appOf[id] {
      var j := LowestOther(t.appOf, t.appOf[id], id);
      assert u.appOf[j] == t.appOf[id] && IsAudible(u, j) && !IsAudible(t, j);
    } else {
      forall j | j in u.outlets ensures Fed(u, j) <==> IsAudible(u, j) {
        StillJudged(t, id, j);
      }
    }
  }

  lemma StillJudged(t: Table, id: u32, j: u32)
    requires t.perApplication && Inv(t) && j in t.outlets && j != id
    requires !(id in t.appOf && IsAudible(t, id) && exists i :: i in t.appOf && i != id && t.appOf[i] == t.appOf[id])
    ensures IsAudible(Remove(t, id), j) <==> IsAudible(t, j)
  {
    var u := Remove(t, id);
    if id in t.appOf && j in t.appOf && t.appOf[j] == t.appOf[id] {
      assert !IsAudible(t, id);
      if IsFirst(u.appOf, t.appOf[j], j) && !IsFirst(t.appOf, t.appOf[id], id) {
        var i :| i in t.appOf && t.appOf[i] == t.appOf[id] && i < id;
        assert i in u.appOf && u.appOf[i] == t.appOf[j] && j <= i;
        forall h | h in t.appOf && t.appOf[h] == t.appOf[j] ensures j <= h {
          if h != id { assert h in u.appOf && u.appOf[h] == t.appOf[j]; }
        }
      }
    } else if j in t.appOf {
      assert IsFirst(u.appOf, t.appOf[j], j) <==> IsFirst(t.appOf, t.appOf[j], j) by {
        assert forall i :: i in t.appOf && t.appOf[i] == t.appOf[j] ==> i in u.appOf;
      }
    }
  }

  lemma Lowest(ids: set<u32>) returns (j: u32)
    requires ids != {}
    ensures j in ids && forall i :: i in ids ==> j <= i
    decreases |ids|
  {
    var i: u32 :| i in ids;
    j := i;
    if ids != {i} {
      assert ids - {i} != {} && ids == (ids - {i}) + {i};
      var k := Lowest(ids - {i});
      if k < i { j := k; }
    }
  }

  lemma LowestOther(appOf: map<u32, u32>, app: u32, id: u32) returns (j: u32)
    requires exists i :: i in appOf && i != id && appOf[i] == app
    ensures j != id && IsFirst(appOf - {id}, app, j)
  {
    var ids := set i | i in appOf && i != id && appOf[i] == app;
    var i :| i in appOf && i != id && appOf[i] == app;
    assert i in ids;
    j := Lowest(ids);
    forall i | i in appOf - {id} && (appOf - {id})[i] == app ensures j <= i {
      assert i in ids;
    }
  }

  // ------------------------------------------------- read off the events alone

  /** The application tag of an open channel: that of the first open since it was last
      closed. A channel that is not open has none, an open one may have no tag. */
  function OpenTag(events: seq<Event>, id: u32): Option<Option<u32>> {
    if events == [] then None
    else
      var before, last := OpenTag(events[..|events| - 1], id), events[|events| - 1];
      if last.Close? && last.id == id then None
      else if last.Open? && last.id == id && before == None then Some(last.app)
      else before
  }

  function LastForeground(events: seq<Event>): Option<u32> {
    if events == [] then None
    else
      var last := events[|events| - 1];
      if last.Foreground? then last.connection else LastForeground(events[..|events| - 1])
  }

  /** The table's book of a channel is what the events say. */
  ghost predicate Book(t: Table, id: u32, tag: Option<Option<u32>>) {
    && (id in t.outlets <==> tag.Some?)
    && (id in t.appOf <==> tag.Some? && tag.value.Some?)
    && (id in t.appOf ==> tag == Some(Some(t.appOf[id])))
  }

  ghost predicate Books(t: Table, events: seq<Event>) {
    t.foreground == LastForeground(events) && forall id: u32 :: Book(t, id, OpenTag(events, id))
  }

  lemma TakeBooks(t: Table, e: Event, id: u32, before: Option<Option<u32>>)
    requires Book(t, id, before)
    ensures Book(Take(t, e), id,
                 if e.Close? && e.id == id then None
                 else if e.Open? && e.id == id && before == None then Some(e.app) else before)
  {
    hide IsAudible;
  }

  lemma {:induction false} RunBooks(perApplication: bool, events: seq<Event>)
    ensures Books(Run(perApplication, events), events)
  {
    hide Book;
    if events == [] {
      FreshBooks(perApplication);
    } else {
      var front, last := events[..|events| - 1], events[|events| - 1];
      RunBooks(perApplication, front);
      var t := Run(perApplication, front);
      forall id: u32 ensures Book(Take(t, last), id, OpenTag(events, id)) {
        assert Book(t, id, OpenTag(front, id));
        TakeBooks(t, last, id, OpenTag(front, id));
      }
    }
  }

  lemma FreshBooks(perApplication: bool)
    ensures forall id: u32 :: Book(Fresh(perApplication), id, OpenTag([], id))
  {
  }

  /** The lowest open channel of an application. */
  ghost predicate LowestOf(events: seq<Event>, app: u32, id: u32) {
    OpenTag(events, id) == Some(Some(app)) && forall j: u32 :: OpenTag(events, j) == Some(Some(app)) ==> id <= j
  }

  lemma FirstIsLowest(t: Table, events: seq<Event>, app: u32, id: u32)
    requires Books(t, events)
    ensures IsFirst(t.appOf, app, id) <==> LowestOf(events, app, id)
  {
    hide OpenTag;
    assert Book(t, id, OpenTag(events, id));
    if LowestOf(events, app, id) {
      forall j | j in t.appOf && t.appOf[j] == app ensures id <= j {
        assert Book(t, j, OpenTag(events, j));
      }
    }
    if IsFirst(t.appOf, app, id) {
      forall j: u32 | OpenTag(events, j) == Some(Some(app)) ensures id <= j {
        assert Book(t, j, OpenTag(events, j));
      }
    }
  }

  /** THE selection law, read off the events. After an open or a foreground change a
      player is fed exactly when its channel is open and: the relay ships the desktop mix;
      or the foreground is known and the channel is the lowest of that application; or it
      is not, and the channel has no tag or is the lowest of its own. */
  lemma FedExactly(perApplication: bool, events: seq<Event>, e: Event, id: u32)
    requires !e.Close?
    ensures var all := events + [e];
            var tag, fg := OpenTag(all, id), LastForeground(all);
            Fed(Run(perApplication, all), id) <==>
              && tag.Some?
              && (perApplication ==>
                    if fg.Some? then LowestOf(all, fg.value, id)
                    else tag.value.Some? ==> LowestOf(all, tag.value.value, id))
  {
    hide Run, OpenTag, LastForeground, IsFirst, LowestOf;
    var all := events + [e];
    var t := Run(perApplication, all);
    SettledAfterRefresh(perApplication, events, e);
    RunKeeps(perApplication, all);
    RunBooks(perApplication, all);
    assert Book(t, id, OpenTag(all, id));
    if id in t.appOf { FirstIsLowest(t, all, t.appOf[id], id); }
    if t.foreground.Some? {
      FirstIsLowest(t, all, t.foreground.value, id);
      LowestHasTag(all, t.foreground.value, id);
    }
  }

  lemma LowestHasTag(events: seq<Event>, app: u32, id: u32)
    ensures LowestOf(events, app, id) ==> OpenTag(events, id) == Some(Some(app))
  {
  }

  /** An application in the foreground that has an open channel is heard. */
  lemma ForegroundHeard(perApplication: bool, events: seq<Event>, e: Event, i: u32) returns (id: u32)
    requires !e.Close? && LastForeground(events + [e]).Some?
    requires OpenTag(events + [e], i) == Some(Some(LastForeground(events + [e]).value))
    ensures Fed(Run(perApplication, events + [e]), id)
         && OpenTag(events + [e], id) == OpenTag(events + [e], i)
  {
    hide Run, OpenTag, LastForeground;
    var all := events + [e];
    var t, app := Run(perApplication, all), LastForeground(all).value;
    RunBooks(perApplication, all);
    var ids := set j | j in t.appOf && t.appOf[j] == app;
    assert Book(t, i, OpenTag(all, i)) && i in ids;
    id := Lowest(ids);
    assert IsFirst(t.appOf, app, id) by {
      forall j | j in t.appOf && t.appOf[j] == app ensures id <= j { assert j in ids; }
    }
    FirstIsLowest(t, all, app, id);
    assert Book(t, id, OpenTag(all, id));
    FedExactly(perApplication, events, e, id);
  }
}

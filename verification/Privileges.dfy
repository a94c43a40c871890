/** Granted privileges: a fold of maxima and minima over grants, single and batched queries, and assignment rules. */
module Privileges {
  import opened Wrappers

  type Id = nat
  type Int16 = n: int | -0x8000 <= n < 0x8000
  type GrantValue = n: int | -32000 <= n <= 32000

  function ToInt16(n: int): Int16 {
    (n + 0x8000) % 0x1_0000 - 0x8000
  }

  /** A user; id 0 is the anonymous user. `earned` is the bonus from the message count before it is capped. */
  datatype User = User(id: Id, earned: Int16)

  datatype Config = Config(defaultLevel: Int16, maxBonus: Int16)

  function DefaultLevel(config: Config, user: User): Int16 {
    ToInt16(config.defaultLevel + if config.maxBonus < user.earned then config.maxBonus else user.earned)
  }

  datatype Entry = Entry(userId: Id, entityId: Id, value: GrantValue, grantedAt: int, expiresAt: int)

  predicate Active(e: Entry, user: User, entity: Id, now: int) {
    e.userId == user.id && e.entityId == entity && !(0 < e.expiresAt < now)
  }

  datatype Scope = MessageScope | ThreadScope | TagScope | CategoryScope | ForumScope

  /** Something privileges are granted on; the forum itself has id 0. */
  datatype Place = Place(scope: Scope, id: Id)

  /** The grants, one collection for each scope. */
  datatype Grants = Grants(
    messages: seq<Entry>, threads: seq<Entry>, tags: seq<Entry>, categories: seq<Entry>, forumWide: seq<Entry>)

  function At(g: Grants, scope: Scope): seq<Entry> {
    match scope
    case MessageScope => g.messages
    case ThreadScope => g.threads
    case TagScope => g.tags
    case CategoryScope => g.categories
    case ForumScope => g.forumWide
  }

  function With(g: Grants, scope: Scope, entries: seq<Entry>): Grants {
    match scope
    case MessageScope => g.(messages := entries)
    case ThreadScope => g.(threads := entries)
    case TagScope => g.(tags := entries)
    case CategoryScope => g.(categories := entries)
    case ForumScope => g.(forumWide := entries)
  }

  function Erased(entries: seq<Entry>, userId: Id, entityId: Id): seq<Entry> {
    if entries == [] then []
    else
      var e := entries[|entries| - 1];
      Erased(entries[..|entries| - 1], userId, entityId)
      + if e.userId == userId && e.entityId == entityId then [] else [e]
  }

  /** Value zero takes all grants back; any other value is added beside the earlier ones. */
  function Granted(g: Grants, place: Place, userId: Id, value: GrantValue, now: int, expiresAt: int): Grants {
    var entries := At(g, place.scope);
    With(g, place.scope,
      if value == 0 then Erased(entries, userId, place.id)
      else entries + [Entry(userId, place.id, value, now, expiresAt)])
  }

  /** The pair of running extremes: the strongest positive and the strongest negative value. */
  datatype Standing = Standing(positive: Option<Int16>, negative: Option<Int16>)

  function MaximumPrivilegeValue(a: Option<Int16>, b: Option<Int16>): Option<Int16> {
    if a.None? then b else if b.None? then a else if a.value < b.value then b else a
  }

  function MinimumPrivilegeValue(a: Option<Int16>, b: Option<Int16>): Option<Int16> {
    if a.None? then b else if b.None? then a else if b.value < a.value then b else a
  }

  function Merge(a: Standing, b: Standing): Standing {
    Standing(MaximumPrivilegeValue(a.positive, b.positive), MinimumPrivilegeValue(a.negative, b.negative))
  }

  const NOTHING := Standing(None, None)

  /** Standings form a semilattice, which is why neither order nor repetition of grants matters. */
  lemma MergeLaws(a: Standing, b: Standing, c: Standing)
    ensures Merge(a, a) == a && Merge(a, NOTHING) == a && Merge(NOTHING, a) == a
    ensures Merge(a, b) == Merge(b, a)
    ensures Merge(Merge(a, b), c) == Merge(a, Merge(b, c))
  {
  }

  function OfValue(value: Int16): Standing {
    if value > 0 then Standing(Some(value), None) else Standing(None, Some(value))
  }

  /** What the grants on one entity give a user. */
  function Level(config: Config, entries: seq<Entry>, user: User, entity: Id, now: int): Standing {
    if user.id == 0 then Standing(Some(0), None)
    else if entries == [] then Standing(Some(DefaultLevel(config, user)), None)
    else
      var e := entries[|entries| - 1];
      Merge(Level(config, entries[..|entries| - 1], user, entity, now),
            if Active(e, user, entity, now) then OfValue(e.value) else NOTHING)
  }

  function LevelAt(config: Config, g: Grants, user: User, places: seq<Place>, now: int): Standing {
    if places == [] then NOTHING
    else
      var p := places[|places| - 1];
      Merge(LevelAt(config, g, user, places[..|places| - 1], now), Level(config, At(g, p.scope), user, p.id, now))
  }

  /** For a logged-in user the positive part is the best of the default level and the positive grants in force... */
  lemma {:induction false} LevelPositive(config: Config, entries: seq<Entry>, user: User, entity: Id, now: int)
    requires user.id != 0
    ensures var p := Level(config, entries, user, entity, now).positive;
      && p.Some? && p.value >= DefaultLevel(config, user)
      && (forall e | e in entries && Active(e, user, entity, now) && e.value > 0 :: e.value <= p.value)
      && (p.value == DefaultLevel(config, user)
          || exists e :: e in entries && Active(e, user, entity, now) && 0 < e.value == p.value)
  {
    if entries != [] {
      LevelPositive(config, entries[..|entries| - 1], user, entity, now);
      assert entries == entries[..|entries| - 1] + [entries[|entries| - 1]];
    }
  }

  /** ...and the negative part is the lowest of the negative grants in force, if there are any. */
  lemma {:induction false} LevelNegative(config: Config, entries: seq<Entry>, user: User, entity: Id, now: int)
    requires user.id != 0
    ensures var n := Level(config, entries, user, entity, now).negative;
      && (forall e | e in entries && Active(e, user, entity, now) && e.value <= 0 :: n.Some? && n.value <= e.value)
      && (n.Some? ==> exists e :: e in entries && Active(e, user, entity, now) && e.value == n.value <= 0)
  {
    if entries != [] {
      LevelNegative(config, entries[..|entries| - 1], user, entity, now);
      assert entries == entries[..|entries| - 1] + [entries[|entries| - 1]];
    }
  }

  lemma {:induction false} Absorbs(config: Config, g: Grants, user: User, places: seq<Place>, now: int, p: Place)
    requires p in places
    ensures Merge(LevelAt(config, g, user, places, now), Level(config, At(g, p.scope), user, p.id, now))
      == LevelAt(config, g, user, places, now)
  {
    var front, last := LevelAt(config, g, user, places[..|places| - 1], now), places[|places| - 1];
    var l, m := Level(config, At(g, last.scope), user, last.id, now), Level(config, At(g, p.scope), user, p.id, now);
    MergeLaws(front, l, m);
    MergeLaws(l, m, m);
    MergeLaws(front, m, l);
    hide Merge;
    if p != places[|places| - 1] {
      assert places == places[..|places| - 1] + [places[|places| - 1]];
      Absorbs(config, g, user, places[..|places| - 1], now, p);
    }
  }

  lemma {:induction false} AbsorbsAll(config: Config, g: Grants, user: User, places: seq<Place>,
      some: seq<Place>, now: int)
    requires forall p | p in some :: p in places
    ensures Merge(LevelAt(config, g, user, places, now), LevelAt(config, g, user, some, now))
      == LevelAt(config, g, user, places, now)
  {
    var all := LevelAt(config, g, user, places, now);
    MergeLaws(all, all, all);
    hide Merge;
    if some != [] {
      var last := some[|some| - 1];
      MergeLaws(all, LevelAt(config, g, user, some[..|some| - 1], now),
        Level(config, At(g, last.scope), user, last.id, now));
      assert some == some[..|some| - 1] + [some[|some| - 1]];
      AbsorbsAll(config, g, user, places, some[..|some| - 1], now);
      Absorbs(config, g, user, places, now, some[|some| - 1]);
    }
  }

  /** The level depends on which places are asked, not on their order. */
  lemma OrderDoesNotMatter(config: Config, g: Grants, user: User, a: seq<Place>, b: seq<Place>, now: int)
    requires forall p :: p in a <==> p in b
    ensures LevelAt(config, g, user, a, now) == LevelAt(config, g, user, b, now)
  {
    AbsorbsAll(config, g, user, a, b, now);
    AbsorbsAll(config, g, user, b, a, now);
    MergeLaws(LevelAt(config, g, user, a, now), LevelAt(config, g, user, b, now), NOTHING);
  }

  lemma {:induction false} LevelAtAppend(config: Config, g: Grants, user: User, a: seq<Place>, b: seq<Place>, now: int)
    ensures LevelAt(config, g, user, a + b, now)
      == Merge(LevelAt(config, g, user, a, now), LevelAt(config, g, user, b, now))
  {
    var first := LevelAt(config, g, user, a, now);
    MergeLaws(first, first, first);
    if b != [] {
      var last := b[|b| - 1];
      MergeLaws(first, LevelAt(config, g, user, b[..|b| - 1], now),
        Level(config, At(g, last.scope), user, last.id, now));
    }
    hide Merge;
    if b == [] {
      assert a + b == a;
    } else {
      assert (a + b)[..|a + b| - 1] == a + b[..|b| - 1];
      LevelAtAppend(config, g, user, a, b[..|b| - 1], now);
    }
  }

  function OptionalOrZero(v: Option<Int16>): Int16 {
    if v.Some? then v.value else 0
  }

  function EffectivePrivilegeValue(s: Standing): Int16 {
    ToInt16(OptionalOrZero(s.positive) + OptionalOrZero(s.negative))
  }

  /** The level access is granted with, if it is granted. */
  function Allowed(s: Standing, required: Option<Int16>): Option<Int16> {
    if EffectivePrivilegeValue(s) >= OptionalOrZero(required) then Some(EffectivePrivilegeValue(s)) else None
  }

  /** Required levels for the privileges of a thread message; an entity may leave any of them to the next one up. */
  datatype MessagePrivilege = View | ViewCreatorUser | ViewVotes | ViewIpAddress | GetMessageComments
      | OtherPrivilege(nr: nat)
  type RequiredLevels = map<MessagePrivilege, Int16>

  function Own(levels: RequiredLevels, privilege: MessagePrivilege): Option<Int16> {
    if privilege in levels then Some(levels[privilege]) else None
  }

  datatype Tag = Tag(id: Id, levels: RequiredLevels)
  datatype Thread = Thread(id: Id, tags: seq<Tag>, levels: RequiredLevels)
  datatype Message = Message(id: Id, thread: Thread, levels: RequiredLevels)

  function RequiredByTag(forum: RequiredLevels, tag: Tag, privilege: MessagePrivilege): Option<Int16> {
    if Own(tag.levels, privilege).Some? then Own(tag.levels, privilege) else Own(forum, privilege)
  }

  function RequiredByTags(forum: RequiredLevels, tags: seq<Tag>, privilege: MessagePrivilege): Option<Int16> {
    if tags == [] then None
    else MaximumPrivilegeValue(RequiredByTags(forum, tags[..|tags| - 1], privilege),
      RequiredByTag(forum, tags[|tags| - 1], privilege))
  }

  function RequiredByThread(forum: RequiredLevels, thread: Thread, privilege: MessagePrivilege): Option<Int16> {
    if Own(thread.levels, privilege).Some? then Own(thread.levels, privilege)
    else if thread.tags == [] then Own(forum, privilege)
    else RequiredByTags(forum, thread.tags, privilege)
  }

  function RequiredByMessage(forum: RequiredLevels, message: Message, privilege: MessagePrivilege): Option<Int16> {
    if Own(message.levels, privilege).Some? then Own(message.levels, privilege)
    else RequiredByThread(forum, message.thread, privilege)
  }

  /** Where the grants for a thread's messages are looked up: the thread, its tags, the forum. */
  function ThreadPlaces(thread: Thread): seq<Place> {
    [Place(ThreadScope, thread.id)] + TagPlaces(thread.tags) + [Place(ForumScope, 0)]
  }

  function TagPlaces(tags: seq<Tag>): seq<Place> {
    seq(|tags|, i requires 0 <= i < |tags| => Place(TagScope, tags[i].id))
  }

  function MessagePlaces(message: Message): seq<Place> {
    [Place(MessageScope, message.id)] + ThreadPlaces(message.thread)
  }

  lemma {:induction false} RequiredBound(forum: RequiredLevels, tags: seq<Tag>, privilege: MessagePrivilege)
    ensures var r := RequiredByTags(forum, tags, privilege);
      && (forall t | t in tags && RequiredByTag(forum, t, privilege).Some? ::
        r.Some? && RequiredByTag(forum, t, privilege).value <= r.value)
      && (r.Some? ==> exists t :: t in tags && RequiredByTag(forum, t, privilege) == r)
  {
    if tags != [] {
      RequiredBound(forum, tags[..|tags| - 1], privilege);
      assert tags == tags[..|tags| - 1] + [tags[|tags| - 1]];
    }
  }

  /** Whether a value is enough for a privilege on a message, from the levels set: the message's own level counts, else
      the thread's, else those of all its tags, with the forum's for a tag that has none, else the forum's. Where
      nothing is set, zero is enough. */
  predicate Suffices(value: int, forum: RequiredLevels, m: Message, privilege: MessagePrivilege) {
    if privilege in m.levels then value >= m.levels[privilege]
    else if privilege in m.thread.levels then value >= m.thread.levels[privilege]
    else if m.thread.tags == [] then value >= if privilege in forum then forum[privilege] else 0
    else
      && (forall t | t in m.thread.tags && privilege in t.levels :: value >= t.levels[privilege])
      && ((exists t :: t in m.thread.tags && privilege !in t.levels) && privilege in forum ==>
            value >= forum[privilege])
      && ((forall t | t in m.thread.tags :: privilege !in t.levels) && privilege !in forum ==> value >= 0)
  }

  lemma TagsSuffice(value: int, forum: RequiredLevels, m: Message, privilege: MessagePrivilege)
    requires privilege !in m.levels && privilege !in m.thread.levels && m.thread.tags != []
    ensures value >= OptionalOrZero(RequiredByTags(forum, m.thread.tags, privilege))
      <==> Suffices(value, forum, m, privilege)
  {
    var tags := m.thread.tags;
    RequiredBound(forum, tags, privilege);
    assert tags[0] in tags;
    if forall t | t in tags :: privilege !in t.levels {
      assert RequiredByTag(forum, tags[0], privilege) == Own(forum, privilege);
    }
  }

  /** The level that is required is right: a value reaches it exactly when it is enough. */
  lemma RequiredIsEnough(value: int, forum: RequiredLevels, m: Message, privilege: MessagePrivilege)
    ensures value >= OptionalOrZero(RequiredByMessage(forum, m, privilege)) <==> Suffices(value, forum, m, privilege)
  {
    if privilege !in m.levels && privilege !in m.thread.levels && m.thread.tags != [] {
      TagsSuffice(value, forum, m, privilege);
    }
  }

  /** A grant that is in force for the user at one of these places. */
  ghost predicate InForce(g: Grants, user: User, places: seq<Place>, now: int, e: Entry) {
    exists p :: p in places && e in At(g, p.scope) && Active(e, user, p.id, now)
  }

  /** The best of the default level and the positive grants in force, and the lowest of the other grants in force; the
      anonymous user has zero. */
  ghost predicate IsStrongest(config: Config, g: Grants, user: User, places: seq<Place>, now: int, s: Standing) {
    if user.id == 0 then s == Standing(Some(0), None)
    else
      && s.positive.Some? && s.positive.value >= DefaultLevel(config, user)
      && (forall e | InForce(g, user, places, now, e) ::
            if e.value > 0 then e.value <= s.positive.value else s.negative.Some? && s.negative.value <= e.value)
      && (s.positive.value == DefaultLevel(config, user)
          || exists e :: InForce(g, user, places, now, e) && 0 < e.value == s.positive.value)
      && (s.negative.Some? ==> exists e :: InForce(g, user, places, now, e) && e.value == s.negative.value <= 0)
  }

  lemma InForceMore(g: Grants, user: User, places: seq<Place>, now: int, e: Entry)
    requires places != []
    ensures var p := places[|places| - 1];
      InForce(g, user, places, now, e)
      <==> InForce(g, user, places[..|places| - 1], now, e) || (e in At(g, p.scope) && Active(e, user, p.id, now))
  {
    assert places == places[..|places| - 1] + [places[|places| - 1]];
  }

  /** What a standing means, whatever the places: the strongest values in force there. */
  lemma {:induction false} LevelAtStrongest(config: Config, g: Grants, user: User, places: seq<Place>, now: int)
    requires places != []
    ensures IsStrongest(config, g, user, places, now, LevelAt(config, g, user, places, now))
  {
    var front, p := places[..|places| - 1], places[|places| - 1];
    if front != [] { LevelAtStrongest(config, g, user, front, now); }
    if user.id != 0 {
      LevelPositive(config, At(g, p.scope), user, p.id, now);
      LevelNegative(config, At(g, p.scope), user, p.id, now);
      hide InForce, Active, DefaultLevel, At, Level;
      forall e ensures InForce(g, user, places, now, e)
          <==> InForce(g, user, front, now, e) || (e in At(g, p.scope) && Active(e, user, p.id, now)) {
        InForceMore(g, user, places, now, e);
      }
      forall e ensures !InForce(g, user, [], now, e) { NotInForce(g, user, now, e); }
    }
  }

  lemma NotInForce(g: Grants, user: User, now: int, e: Entry)
    ensures !InForce(g, user, [], now, e)
  {
  }

  /** Where a grant must have been made to count for a message: on it, on its thread, on a tag of the thread, or
      forum-wide. */
  predicate CountsFor(m: Message, p: Place) {
    match p.scope
    case MessageScope => p.id == m.id
    case ThreadScope => p.id == m.thread.id
    case TagScope => exists t :: t in m.thread.tags && p.id == t.id
    case CategoryScope => false
    case ForumScope => p.id == 0
  }

  lemma MessagePlacesAre(m: Message, p: Place)
    ensures p in MessagePlaces(m) <==> CountsFor(m, p)
  {
    TagPlacesMembers(m.thread.tags, p);
    hide TagPlaces;
    assert p in MessagePlaces(m) <==>
      p == Place(MessageScope, m.id) || p == Place(ThreadScope, m.thread.id) || p in TagPlaces(m.thread.tags)
      || p == Place(ForumScope, 0);
  }

  /** Whether a user may use a privilege on a message does not depend on the order of the thread's tags. */
  lemma TagOrderDoesNotMatter(config: Config, g: Grants, forum: RequiredLevels, user: User, m: Message, tags: seq<Tag>,
      privilege: MessagePrivilege, now: int)
    requires forall t :: t in tags <==> t in m.thread.tags
    ensures var n := m.(thread := m.thread.(tags := tags));
      Allowed(LevelAt(config, g, user, MessagePlaces(n), now), RequiredByMessage(forum, n, privilege))
      == Allowed(LevelAt(config, g, user, MessagePlaces(m), now), RequiredByMessage(forum, m, privilege))
  {
    var n := m.(thread := m.thread.(tags := tags));
    forall p ensures p in MessagePlaces(m) <==> p in MessagePlaces(n) {
      TagPlacesMembers(tags, p);
      TagPlacesMembers(m.thread.tags, p);
    }
    OrderDoesNotMatter(config, g, user, MessagePlaces(m), MessagePlaces(n), now);
    RequiredBound(forum, tags, privilege);
    RequiredBound(forum, m.thread.tags, privilege);
    assert tags == [] <==> m.thread.tags == [] by {
      if tags != [] { assert tags[0] in m.thread.tags; }
      if m.thread.tags != [] { assert m.thread.tags[0] in tags; }
    }
  }

  lemma TagPlacesMembers(tags: seq<Tag>, p: Place)
    ensures p in TagPlaces(tags) <==> exists t :: t in tags && p == Place(TagScope, t.id)
  {
    if p in TagPlaces(tags) {
      var i :| 0 <= i < |tags| && TagPlaces(tags)[i] == p;
      assert tags[i] in tags;
    }
    forall t | t in tags && p == Place(TagScope, t.id) ensures p in TagPlaces(tags) {
      var i :| 0 <= i < |tags| && tags[i] == t;
      assert TagPlaces(tags)[i] == p;
    }
  }

  /** One request of the batched visibility query, with its five answers. */
  datatype Check = Check(user: User, message: Message, allowedToShowMessage: bool, allowedToShowUser: bool,
                         allowedToShowVotes: bool, allowedToShowIpAddress: bool, allowedToViewComments: bool)

  class GrantedPrivilegeStore {
    const config: Config
    var grants: Grants

    constructor (config: Config)
      ensures this.config == config && grants == Grants([], [], [], [], [])
    {
      this.config, grants := config, Grants([], [], [], [], []);
    }

    /** The five grant operations, one for each scope. */
    method Grant(place: Place, userId: Id, value: GrantValue, now: int, expiresAt: int)
      modifies `grants
      ensures grants == Granted(old(grants), place, userId, value, now, expiresAt)
    {
      var entries := At(grants, place.scope);
      if value == 0 {
        grants := With(grants, place.scope, Erased(entries, userId, place.id));
        return;
      }
      grants := With(grants, place.scope, entries + [Entry(userId, place.id, value, now, expiresAt)]);
    }

    method CalculatePrivilege(place: Place, user: User, now: int, positive: Option<Int16>, negative: Option<Int16>)
      returns (positiveValue: Option<Int16>, negativeValue: Option<Int16>)
      ensures Standing(positiveValue, negativeValue)
        == Merge(Standing(positive, negative), Level(config, At(grants, place.scope), user, place.id, now))
    {
      positiveValue, negativeValue := positive, negative;
      if user.id == 0 {
        positiveValue := MaximumPrivilegeValue(positiveValue, Some(0));
        return;
      }
      positiveValue := MaximumPrivilegeValue(positiveValue, Some(DefaultLevel(config, user)));
      var entries := At(grants, place.scope);
      for i := 0 to |entries|
        invariant Standing(positiveValue, negativeValue)
          == Merge(Standing(positive, negative), Level(config, entries[..i], user, place.id, now))
      {
        assert entries[..i + 1][..i] == entries[..i];
        var entry := entries[i];
        if entry.userId != user.id || entry.entityId != place.id { continue; }
        if entry.expiresAt > 0 && entry.expiresAt < now { continue; }
        if entry.value > 0 {
          positiveValue := MaximumPrivilegeValue(positiveValue, Some(entry.value));
        } else {
          negativeValue := MinimumPrivilegeValue(negativeValue, Some(entry.value));
        }
      }
      assert entries[..|entries|] == entries;
    }

    method CalculateOver(places: seq<Place>, user: User, now: int, positive: Option<Int16>, negative: Option<Int16>)
      returns (positiveValue: Option<Int16>, negativeValue: Option<Int16>)
      ensures Standing(positiveValue, negativeValue)
        == Merge(Standing(positive, negative), LevelAt(config, grants, user, places, now))
    {
      MergeLaws(Standing(positive, negative), NOTHING, NOTHING);
      hide Merge;
      positiveValue, negativeValue := positive, negative;
      for i := 0 to |places|
        invariant Standing(positiveValue, negativeValue)
          == Merge(Standing(positive, negative), LevelAt(config, grants, user, places[..i], now))
      {
        assert places[..i + 1][..i] == places[..i];
        MergeLaws(Standing(positive, negative), LevelAt(config, grants, user, places[..i], now),
                  Level(config, At(grants, places[i].scope), user, places[i].id, now));
        positiveValue, negativeValue := CalculatePrivilege(places[i], user, now, positiveValue, negativeValue);
      }
      assert places[..|places|] == places;
    }

    /** The single query: may this user use this privilege on this message? */
    method IsAllowed(user: User, message: Message, privilege: MessagePrivilege, forum: RequiredLevels, now: int)
      returns (level: Option<Int16>)
      ensures level == Allowed(LevelAt(config, grants, user, MessagePlaces(message), now),
        RequiredByMessage(forum, message, privilege))
      ensures var s := LevelAt(config, grants, user, MessagePlaces(message), now);
        && IsStrongest(config, grants, user, MessagePlaces(message), now, s)
        && (forall p :: p in MessagePlaces(message) <==> CountsFor(message, p))
        && var value := EffectivePrivilegeValue(s);
           level == if Suffices(value, forum, message, privilege) then Some(value) else None
    {
      ghost var s := LevelAt(config, grants, user, MessagePlaces(message), now);
      RequiredIsEnough(EffectivePrivilegeValue(s), forum, message, privilege);
      LevelAtStrongest(config, grants, user, MessagePlaces(message), now);
      forall p ensures p in MessagePlaces(message) <==> CountsFor(message, p) { MessagePlacesAre(message, p); }
      hide IsStrongest, CountsFor, Suffices;
      LevelAtAppend(config, grants, user, [Place(MessageScope, message.id)], ThreadPlaces(message.thread), now);
      MergeLaws(Level(config, At(grants, MessageScope), user, message.id, now), NOTHING, NOTHING);
      hide Merge;
      var positive, negative := CalculatePrivilege(Place(MessageScope, message.id), user, now, None, None);
      OnePlace(config, grants, user, Place(MessageScope, message.id), now);
      positive, negative := CalculateOver(ThreadPlaces(message.thread), user, now, positive, negative);
      level := Allowed(Standing(positive, negative), RequiredByMessage(forum, message, privilege));
    }

    /** The batched query works out the thread's part once; every answer is that of the single query. */
    method ComputeVisibility(items: array<Check>, forum: RequiredLevels, now: int)
      requires forall i, j | 0 <= i < items.Length && 0 <= j < items.Length ::
        items[i].user == items[j].user && items[i].message.thread == items[j].message.thread
      modifies items
      ensures forall i | 0 <= i < items.Length :: Answered(old(items[i]), items[i], forum, now)
    {
      hide Merge, Allowed, RequiredByThread, Suffices, May, Answered, LevelAt, ThreadPlaces;
      if items.Length < 1 { return; }
      var user, thread := items[0].user, items[0].message.thread;
      MergeLaws(LevelAt(config, grants, user, ThreadPlaces(thread), now), NOTHING, NOTHING);
      var threadPositive, threadNegative := CalculateOver(ThreadPlaces(thread), user, now, None, None);
      var required := [RequiredByThread(forum, thread, View), RequiredByThread(forum, thread, ViewCreatorUser),
                       RequiredByThread(forum, thread, ViewVotes), RequiredByThread(forum, thread, ViewIpAddress),
                       RequiredByThread(forum, thread, GetMessageComments)];
      for i := 0 to items.Length
        invariant forall j | i <= j < items.Length :: items[j] == old(items[j])
        invariant forall j | 0 <= j < i :: Answered(old(items[j]), items[j], forum, now)
      {
        var answer := AnswerOne(items[i], threadPositive, threadNegative, required, forum, now);
        items[i] := answer;
      }
    }

    /** One round of the batch, from the thread's standing and its five required levels. */
    method AnswerOne(item: Check, threadPositive: Option<Int16>, threadNegative: Option<Int16>,
        required: seq<Option<Int16>>,
        ghost forum: RequiredLevels, now: int) returns (answer: Check)
      requires Standing(threadPositive, threadNegative)
        == LevelAt(config, grants, item.user, ThreadPlaces(item.message.thread), now)
      requires required == [
        RequiredByThread(forum, item.message.thread, View),
        RequiredByThread(forum, item.message.thread, ViewCreatorUser),
        RequiredByThread(forum, item.message.thread, ViewVotes),
        RequiredByThread(forum, item.message.thread, ViewIpAddress),
                            RequiredByThread(forum, item.message.thread, GetMessageComments)]
      ensures Answered(item, answer, forum, now)
    {
      var place := Place(MessageScope, item.message.id);
      MergeLaws(Level(config, At(grants, MessageScope), item.user, item.message.id, now), NOTHING, NOTHING);
      hide Allowed, RequiredByThread;
      var p, n := CalculatePrivilege(place, item.user, now, None, None);
      var positive := MaximumPrivilegeValue(p, threadPositive);
      var negative := MinimumPrivilegeValue(n, threadNegative);
      OnePlace(config, grants, item.user, place, now);
      LevelAtAppend(config, grants, item.user, [place], ThreadPlaces(item.message.thread), now);
      assert Standing(positive, negative) == LevelAt(config, grants, item.user, MessagePlaces(item.message), now);
      var standing := Standing(positive, negative);
      MayIs(item, standing, View, required[0], forum, now);
      MayIs(item, standing, ViewCreatorUser, required[1], forum, now);
      MayIs(item, standing, ViewVotes, required[2], forum, now);
      MayIs(item, standing, ViewIpAddress, required[3], forum, now);
      MayIs(item, standing, GetMessageComments, required[4], forum, now);
      hide May, LevelAt, OwnOr;
      answer := item.(
        allowedToShowMessage := Allowed(standing, OwnOr(item.message, View, required[0])).Some?,
        allowedToShowUser := Allowed(standing, OwnOr(item.message, ViewCreatorUser, required[1])).Some?,
        allowedToShowVotes := Allowed(standing, OwnOr(item.message, ViewVotes, required[2])).Some?,
        allowedToShowIpAddress := Allowed(standing, OwnOr(item.message, ViewIpAddress, required[3])).Some?,
        allowedToViewComments := Allowed(standing, OwnOr(item.message, GetMessageComments, required[4])).Some?);
    }

    lemma MayIs(item: Check, standing: Standing, privilege: MessagePrivilege, required: Option<Int16>,
        forum: RequiredLevels, now: int)
      requires standing == LevelAt(config, grants, item.user, MessagePlaces(item.message), now)
      requires required == RequiredByThread(forum, item.message.thread, privilege)
      ensures Allowed(standing, OwnOr(item.message, privilege, required)).Some? <==> May(item, privilege, forum, now)
    {
      RequiredIsEnough(EffectivePrivilegeValue(standing), forum, item.message, privilege);
      hide Suffices, LevelAt, RequiredByThread, MessagePlaces;
    }

    /** The five answers of `after` say for which of five privileges the user's value is enough, as in the single query,
        and nothing else has changed. */
    ghost predicate Answered(before: Check, after: Check, forum: RequiredLevels, now: int)
      reads this
    {
      && after.user == before.user && after.message == before.message
      && after.allowedToShowMessage == May(after, View, forum, now)
      && after.allowedToShowUser == May(after, ViewCreatorUser, forum, now)
      && after.allowedToShowVotes == May(after, ViewVotes, forum, now)
      && after.allowedToShowIpAddress == May(after, ViewIpAddress, forum, now)
      && after.allowedToViewComments == May(after, GetMessageComments, forum, now)
    }

    ghost predicate May(item: Check, privilege: MessagePrivilege, forum: RequiredLevels, now: int)
      reads this
    {
      Suffices(EffectivePrivilegeValue(LevelAt(config, grants, item.user, MessagePlaces(item.message), now)), forum,
        item.message, privilege)
    }
  }

  lemma OnePlace(config: Config, g: Grants, user: User, p: Place, now: int)
    ensures LevelAt(config, g, user, [p], now) == Level(config, At(g, p.scope), user, p.id, now)
  {
    MergeLaws(Level(config, At(g, p.scope), user, p.id, now), NOTHING, NOTHING);
    assert [p][..0] == [];
  }

  /** The message's own level, or the one predetermined for its thread. */
  function OwnOr(message: Message, privilege: MessagePrivilege, threadLevel: Option<Int16>): Option<Int16> {
    if Own(message.levels, privilege).Some? then Own(message.levels, privilege) else threadLevel
  }
}

/** Who may act on whom, who may assign what, and what runs of assignments can reach. */
module Assignments {
  import opened Wrappers
  import opened Privileges

  /** What an assignment is about; categories come with the path of their ancestors. */
  datatype Target = OnMessage(message: Message) | OnThread(thread: Thread) | OnTag(tag: Tag)
      | OnCategory(path: seq<Id>) | OnForum

  predicate IsTarget(target: Target) {
    target.OnCategory? ==> target.path != []
  }

  /** The place itself, where the grant is entered and the old value is read. */
  function PlaceOf(target: Target): Place
    requires IsTarget(target)
  {
    match target
    case OnMessage(m) => Place(MessageScope, m.id)
    case OnThread(t) => Place(ThreadScope, t.id)
    case OnTag(g) => Place(TagScope, g.id)
    case OnCategory(path) => Place(CategoryScope, path[0])
    case OnForum => Place(ForumScope, 0)
  }

  /** Where the assigning user's own level comes from. */
  function PlacesFor(target: Target): seq<Place> {
    match target
    case OnMessage(m) => MessagePlaces(m)
    case OnThread(t) => ThreadPlaces(t)
    case OnTag(g) => [Place(TagScope, g.id), Place(ForumScope, 0)]
    case OnCategory(path) => seq(|path|, i requires 0 <= i < |path| => Place(CategoryScope, path[i]))
      + [Place(ForumScope, 0)]
    case OnForum => [Place(ForumScope, 0)]
  }

  function Abs(n: int): nat {
    if n < 0 then -n else n
  }

  function ComputeOldValue(standing: Standing): Option<Int16> {
    var result := standing.positive;
    if standing.negative.Some? && result.Some? then
      Some(ToInt16(if result.value < Abs(standing.negative.value) then Abs(standing.negative.value) else result.value))
    else result
  }

  function AllowPrivilegeAssignment(oldValue: Option<Int16>, newValue: GrantValue,
      currentPermissions: Option<Int16>): bool {
    var currentPermissionsValue := if currentPermissions.Some? then currentPermissions.value else 0;
    (oldValue.None? || Abs(oldValue.value) < currentPermissionsValue) && Abs(newValue) < currentPermissionsValue
  }

  const NO_GRANTS := Grants([], [], [], [], [])

  datatype AuthorizationStatus = OK | NOT_ALLOWED | THROTTLED

  /** The five assign checks. `required` is the level the target demands for adjusting privileges. */
  function AssignStatus(config: Config, g: Grants, target: Target, required: Option<Int16>, throttled: bool,
      currentUser: User, targetUser: User, newValue: GrantValue, now: int): AuthorizationStatus
    requires IsTarget(target)
  {
    if currentUser.id == targetUser.id then NOT_ALLOWED
    else if throttled then THROTTLED
    else
      var with_ := Allowed(LevelAt(config, g, currentUser, PlacesFor(target), now), required);
      if with_.None? then NOT_ALLOWED
      else
        var place := PlaceOf(target);
        var oldValue := ComputeOldValue(Level(config, At(g, place.scope), targetUser, place.id, now));
        if AllowPrivilegeAssignment(oldValue, newValue, with_) then OK else NOT_ALLOWED
  }

  /** May act on that user: the forum-wide level beats the other user's forum-wide positive level. */
  predicate MayActOn(config: Config, g: Grants, required: Option<Int16>, user: User, targetUser: User, now: int) {
    var with_ := Allowed(LevelAt(config, g, user, [Place(ForumScope, 0)], now), required);
    with_.Some? && with_.value > OptionalOrZero(Level(config, g.forumWide, targetUser, 0, now).positive)
  }

  predicate MayAssign(config: Config, g: Grants, required: Option<Int16>, user: User, targetUser: User,
      newValue: GrantValue, now: int) {
    AssignStatus(config, g, OnForum, required, false, user, targetUser, newValue, now) == OK
  }

  /** Even with the strongest negative grant, the sum of extremes stays in the 16-bit range. */
  predicate NeverWraps(config: Config, user: User) {
    user.id == 0 || DefaultLevel(config, user) - 32000 >= -0x8000
  }

  /** For an ordinary configuration this holds, and the default level is capped. */
  lemma OrdinaryConfiguration(config: Config, user: User)
    requires 0 <= config.defaultLevel && 0 <= config.maxBonus && 0 <= user.earned
      && config.defaultLevel + config.maxBonus < 0x8000
    ensures NeverWraps(config, user) && 0 <= DefaultLevel(config, user) <= config.defaultLevel + config.maxBonus
    ensures user.earned <= config.maxBonus ==> DefaultLevel(config, user) == config.defaultLevel + user.earned
    ensures user.earned >= config.maxBonus ==> DefaultLevel(config, user) == config.defaultLevel + config.maxBonus
    ensures forall bound: nat | config.defaultLevel + config.maxBonus <= bound :: KeepsBound(config, user, bound)
  {
  }

  /** Negative values never lift the effective level above the positive one, as long as the sum does not wrap around. */
  lemma EffectiveBelowPositive(s: Standing)
    requires s.positive.Some? && (s.negative.Some? ==> s.negative.value <= 0)
    ensures EffectivePrivilegeValue(s) <= s.positive.value <==> s.positive.value + OptionalOrZero(s.negative) >= -0x8000
    ensures var sum := s.positive.value + OptionalOrZero(s.negative);
      EffectivePrivilegeValue(s) == if sum >= -0x8000 then sum else sum + 0x1_0000
  {
    var sum := s.positive.value + OptionalOrZero(s.negative);
    if sum < -0x8000 { assert ToInt16(sum) == sum + 0x1_0000; } else { assert ToInt16(sum) == sum; }
  }

  /** What every level looks like: at least the default, and a negative part that is not positive. */
  predicate HasShape(config: Config, user: User, s: Standing) {
    && s.positive.Some? && s.positive.value >= (if user.id == 0 then 0 else DefaultLevel(config, user))
    && (s.negative.Some? ==> -32000 <= s.negative.value <= 0)
  }

  lemma {:induction false} LevelShape(config: Config, entries: seq<Entry>, user: User, entity: Id, now: int)
    ensures HasShape(config, user, Level(config, entries, user, entity, now))
  {
    if user.id != 0 && entries != [] {
      LevelShape(config, entries[..|entries| - 1], user, entity, now);
    }
  }

  lemma {:induction false} LevelAtShape(config: Config, g: Grants, user: User, places: seq<Place>, now: int)
    requires places != []
    ensures HasShape(config, user, LevelAt(config, g, user, places, now))
    ensures user.id == 0 ==> LevelAt(config, g, user, places, now) == Standing(Some(0), None)
  {
    var front, p := places[..|places| - 1], places[|places| - 1];
    LevelShape(config, At(g, p.scope), user, p.id, now);
    if front == [] {
      assert LevelAt(config, g, user, front, now) == NOTHING;
    } else {
      LevelAtShape(config, g, user, front, now);
    }
  }

  lemma EffectiveAt(config: Config, g: Grants, user: User, places: seq<Place>, now: int)
    requires NeverWraps(config, user) && places != []
    ensures var s := LevelAt(config, g, user, places, now);
      s.positive.Some? && EffectivePrivilegeValue(s) <= s.positive.value
  {
    hide LevelAt, DefaultLevel;
    LevelAtShape(config, g, user, places, now);
    EffectiveBelowPositive(LevelAt(config, g, user, places, now));
  }

  lemma ForumLevel(config: Config, g: Grants, user: User, now: int)
    ensures var s := Level(config, g.forumWide, user, 0, now);
      && LevelAt(config, g, user, [Place(ForumScope, 0)], now) == s && HasShape(config, user, s)
      && (NeverWraps(config, user) ==> EffectivePrivilegeValue(s) <= s.positive.value)
  {
    OnePlace(config, g, user, Place(ForumScope, 0), now);
    LevelShape(config, g.forumWide, user, 0, now);
    if NeverWraps(config, user) { EffectiveAt(config, g, user, [Place(ForumScope, 0)], now); }
  }

  /** Nobody may act on themselves, whatever has been granted, exactly when the sum never wraps around. */
  lemma NobodyActsOnThemselves(config: Config, user: User)
    ensures NeverWraps(config, user)
      <==> forall g: Grants, required: Option<Int16>, now: int :: !MayActOn(config, g, required, user, user, now)
  {
    if NeverWraps(config, user) {
      forall g: Grants, required: Option<Int16>, now: int ensures !MayActOn(config, g, required, user, user, now) {
        hide Level, LevelAt;
        ForumLevel(config, g, user, now);
      }
    } else {
      var g := Grants([], [], [], [], [Entry(user.id, 0, -32000, 0, 0)]);
      assert g.forumWide[..0] == [];
      ForumLevel(config, g, user, 0);
      assert Level(config, g.forumWide, user, 0, 0) == Standing(Some(DefaultLevel(config, user)), Some(-32000));
      assert ToInt16(DefaultLevel(config, user) - 32000) == DefaultLevel(config, user) - 32000 + 0x1_0000;
      assert MayActOn(config, g, None, user, user, 0);
    }
  }

  /** For one privilege and one moment, "may act on" is a strict partial order. */
  lemma MayActOnIsStrictOrder(config: Config, g: Grants, required: Option<Int16>, a: User, b: User, c: User, now: int)
    requires NeverWraps(config, a) && NeverWraps(config, b) && NeverWraps(config, c)
    ensures !MayActOn(config, g, required, a, a, now)
    ensures MayActOn(config, g, required, a, b, now) ==> !MayActOn(config, g, required, b, a, now)
    ensures MayActOn(config, g, required, a, b, now) && MayActOn(config, g, required, b, c, now)
      ==> MayActOn(config, g, required, a, c, now)
  {
    hide Level, LevelAt;
    ForumLevel(config, g, a, now);
    ForumLevel(config, g, b, now);
    ForumLevel(config, g, c, now);
  }

  /** The old value is a bound of both extremes. */
  lemma OldValueBounds(s: Standing)
    requires s.positive.Some? && (s.negative.Some? ==> -32000 <= s.negative.value <= 0)
    ensures ComputeOldValue(s).Some? && s.positive.value <= ComputeOldValue(s).value
    ensures s.negative.Some? ==> -s.negative.value <= ComputeOldValue(s).value
  {
  }

  /** The places that count for a target. */
  predicate Concerns(target: Target, p: Place) {
    match target
    case OnMessage(m) => CountsFor(m, p)
    case OnThread(t) => p.scope != MessageScope && CountsFor(Message(0, t, map[]), p)
    case OnTag(g) => p == Place(TagScope, g.id) || p == Place(ForumScope, 0)
    case OnCategory(path) => (p.scope == CategoryScope && p.id in path) || p == Place(ForumScope, 0)
    case OnForum => p == Place(ForumScope, 0)
  }

  lemma PlacesForAre(target: Target, p: Place)
    ensures p in PlacesFor(target) <==> Concerns(target, p)
  {
    match target
    case OnMessage(m) => MessagePlacesAre(m, p);
    case OnThread(t) =>
      MessagePlacesAre(Message(0, t, map[]), p);
      assert p in MessagePlaces(Message(0, t, map[])) <==> p == Place(MessageScope, 0) || p in ThreadPlaces(t);
    case OnTag(g) =>
    case OnCategory(path) =>
      var places := seq(|path|, i requires 0 <= i < |path| => Place(CategoryScope, path[i]));
      if p.scope == CategoryScope && p.id in path {
        var i :| 0 <= i < |path| && path[i] == p.id;
        assert places[i] == p;
      }
      assert p in places <==> p.scope == CategoryScope && p.id in path;
    case OnForum =>
  }

  lemma AssignmentIs(was: Standing, newValue: GrantValue, with_: Option<Int16>)
    requires was.positive.Some? && (was.negative.Some? ==> -32000 <= was.negative.value <= 0)
    ensures AllowPrivilegeAssignment(ComputeOldValue(was), newValue, with_)
      <==> Abs(newValue) < OptionalOrZero(with_)
           && if was.negative.None? then Abs(was.positive.value) < OptionalOrZero(with_)
              else was.positive.value < OptionalOrZero(with_) && Abs(was.negative.value) < OptionalOrZero(with_)
  {
  }

  /** What the five checks decide, from the strongest values in force: the assigner's value must be enough, and beat the
      new value and both of the receiver's old ones. */
  lemma AssignStatusIs(config: Config, g: Grants, target: Target, required: Option<Int16>, throttled: bool,
      currentUser: User, targetUser: User, newValue: GrantValue, now: int)
    requires IsTarget(target)
    ensures var status := AssignStatus(config, g, target, required, throttled, currentUser, targetUser, newValue, now);
      var with_ := LevelAt(config, g, currentUser, PlacesFor(target), now);
      var was := LevelAt(config, g, targetUser, [PlaceOf(target)], now);
      var value := EffectivePrivilegeValue(with_);
      && IsStrongest(config, g, currentUser, PlacesFor(target), now, with_)
      && IsStrongest(config, g, targetUser, [PlaceOf(target)], now, was)
      && (status == THROTTLED <==> currentUser.id != targetUser.id && throttled)
      && was.positive.Some?
      && (status == OK <==>
            && currentUser.id != targetUser.id && !throttled && value >= OptionalOrZero(required)
            && Abs(newValue) < value
            && if was.negative.None? then Abs(was.positive.value) < value
               else was.positive.value < value && Abs(was.negative.value) < value)
  {
    hide IsStrongest, LevelAt, Level, PlacesFor, PlaceOf, DefaultLevel, EffectivePrivilegeValue, ComputeOldValue, Abs;
    hide AllowPrivilegeAssignment;
    PlacesNotEmpty(target);
    LevelAtStrongest(config, g, currentUser, PlacesFor(target), now);
    LevelAtStrongest(config, g, targetUser, [PlaceOf(target)], now);
    OnePlace(config, g, targetUser, PlaceOf(target), now);
    LevelShape(config, At(g, PlaceOf(target).scope), targetUser, PlaceOf(target).id, now);
    var value := EffectivePrivilegeValue(LevelAt(config, g, currentUser, PlacesFor(target), now));
    AssignmentIs(LevelAt(config, g, targetUser, [PlaceOf(target)], now), newValue, Some(value));
  }

  /** The positive part of the forum-wide level. */
  function Rank(config: Config, g: Grants, user: User, now: int): int {
    OptionalOrZero(Level(config, g.forumWide, user, 0, now).positive)
  }

  /** The level one assigns with, if there is any. */
  function Authority(config: Config, g: Grants, required: Option<Int16>, user: User, now: int): Option<Int16> {
    Allowed(LevelAt(config, g, user, [Place(ForumScope, 0)], now), required)
  }

  /** The level one assigns with beats everything the other has and is no more than one's own positive part. */
  lemma AssignerOutranks(config: Config, g: Grants, required: Option<Int16>, a: User, b: User, v: GrantValue, now: int)
    requires NeverWraps(config, a) && NeverWraps(config, b) && MayAssign(config, g, required, a, b, v, now)
    ensures var with_ := Authority(config, g, required, a, now);
      a.id != b.id && with_.Some? && Rank(config, g, b, now) < with_.value <= Rank(config, g, a, now)
  {
    hide Level, LevelAt, ComputeOldValue, NeverWraps;
    ForumLevel(config, g, a, now);
    ForumLevel(config, g, b, now);
    OldValueBounds(Level(config, g.forumWide, b, 0, now));
  }

  /** So is "may assign a forum-wide privilege to". */
  lemma MayAssignIsStrictOrder(config: Config, g: Grants, required: Option<Int16>, a: User, b: User, c: User,
      v: GrantValue, w: GrantValue, now: int)
    requires NeverWraps(config, a) && NeverWraps(config, b) && NeverWraps(config, c) && (a.id == c.id ==> a == c)
    ensures !MayAssign(config, g, required, a, a, v, now)
    ensures MayAssign(config, g, required, a, b, v, now) ==> !MayAssign(config, g, required, b, a, w, now)
    ensures MayAssign(config, g, required, a, b, v, now) && MayAssign(config, g, required, b, c, w, now)
      ==> MayAssign(config, g, required, a, c, v, now) && MayAssign(config, g, required, a, c, w, now)
  {
    hide Level, LevelAt, ComputeOldValue, NeverWraps, Rank, Allowed;
    if MayAssign(config, g, required, a, b, v, now) {
      AssignerOutranks(config, g, required, a, b, v, now);
      if MayAssign(config, g, required, b, a, w, now) { AssignerOutranks(config, g, required, b, a, w, now); }
      if MayAssign(config, g, required, b, c, w, now) { AssignerOutranks(config, g, required, b, c, w, now); }
    }
  }

  /** A user whose default level is so low that a sum can wrap around, and another one like that. */
  lemma AssignToEachOther(config: Config, a: User) returns (g: Grants, b: User)
    requires !NeverWraps(config, a)
    ensures b.earned == a.earned && MayAssign(config, g, None, a, b, 0, 0) && MayAssign(config, g, None, b, a, 0, 0)
  {
    b := User(a.id + 1, a.earned);
    var level := DefaultLevel(config, a);
    var x, y := Entry(a.id, 0, -0x8001 - level, 0, 0), Entry(b.id, 0, -0x8001 - level, 0, 0);
    g := NO_GRANTS.(forumWide := [x, y]);
    assert g.forumWide[..1] == [x] && [x][..0] == [] && DefaultLevel(config, b) == level;
    hide DefaultLevel;
    assert Level(config, [x], a, 0, 0) == Standing(Some(level), Some(x.value));
    assert Level(config, [x, y], a, 0, 0) == Standing(Some(level), Some(x.value));
    assert Level(config, [x], b, 0, 0) == Standing(Some(level), None);
    assert Level(config, [x, y], b, 0, 0) == Standing(Some(level), Some(x.value));
    OnePlace(config, g, a, Place(ForumScope, 0), 0);
    OnePlace(config, g, b, Place(ForumScope, 0), 0);
    assert ToInt16(-0x8001) == 0x7FFF;
  }

  /** Between users with the same default level this is asymmetric, whatever has been granted, exactly when the sum
      never wraps around: otherwise one strong negative grant each lets the two assign to one another. */
  lemma EqualsDoNotAssignToEachOther(config: Config, a: User)
    ensures NeverWraps(config, a)
      <==> forall g: Grants, required: Option<Int16>, b: User, v: GrantValue, w: GrantValue, now: int
             | b.earned == a.earned && MayAssign(config, g, required, a, b, v, now) ::
             !MayAssign(config, g, required, b, a, w, now)
  {
    if NeverWraps(config, a) {
      forall g: Grants, required: Option<Int16>, b: User, v: GrantValue, w: GrantValue, now: int
        | b.earned == a.earned && MayAssign(config, g, required, a, b, v, now)
        ensures !MayAssign(config, g, required, b, a, w, now)
      {
        hide Level, LevelAt, ComputeOldValue;
        ForumLevel(config, g, a, now);
        if a.id != 0 { MayAssignIsStrictOrder(config, g, required, a, b, b, v, w, now); }
      }
    } else {
      var g, b := AssignToEachOther(config, a);
    }
  }

  /** No grant is larger than `bound`. */
  predicate Within(g: Grants, bound: nat) {
    forall scope: Scope, e | e in At(g, scope) :: Abs(e.value) <= bound
  }

  function Larger(a: int, b: int): int {
    if a < b then b else a
  }

  lemma {:induction false} LevelWithin(config: Config, entries: seq<Entry>, user: User, entity: Id, now: int,
      bound: nat)
    requires user.id != 0 && forall e | e in entries :: Abs(e.value) <= bound
    ensures var s := Level(config, entries, user, entity, now);
      && OptionalOrZero(s.positive) <= Larger(bound, DefaultLevel(config, user))
      && OptionalOrZero(s.negative) + bound >= 0
  {
    if entries != [] {
      assert entries == entries[..|entries| - 1] + [entries[|entries| - 1]];
      LevelWithin(config, entries[..|entries| - 1], user, entity, now, bound);
    }
  }

  lemma {:induction false} LevelAtWithin(config: Config, g: Grants, user: User, places: seq<Place>, now: int,
      bound: nat)
    requires user.id != 0 && Within(g, bound)
    ensures var s := LevelAt(config, g, user, places, now);
      && OptionalOrZero(s.positive) <= Larger(bound, DefaultLevel(config, user))
      && OptionalOrZero(s.negative) + bound >= 0
  {
    hide DefaultLevel;
    if places != [] {
      var p := places[|places| - 1];
      LevelAtWithin(config, g, user, places[..|places| - 1], now, bound);
      LevelWithin(config, At(g, p.scope), user, p.id, now, bound);
    }
  }

  /** One request to assign a privilege. */
  datatype Request = Request(target: Target, required: Option<Int16>, throttled: bool, currentUser: User,
      targetUser: User, newValue: GrantValue, now: int, expiresAt: int)

  function Status(config: Config, g: Grants, r: Request): AuthorizationStatus
    requires IsTarget(r.target)
  {
    AssignStatus(config, g, r.target, r.required, r.throttled, r.currentUser, r.targetUser, r.newValue, r.now)
  }

  /** The grants after a request: entered when authorised, else unchanged. */
  function After(config: Config, g: Grants, r: Request): Grants
    requires IsTarget(r.target)
  {
    if Status(config, g, r) == OK then
      Granted(g, PlaceOf(r.target), r.targetUser.id, r.newValue, r.now, r.expiresAt)
    else g
  }

  lemma {:induction false} ErasedIsPart(entries: seq<Entry>, userId: Id, entityId: Id)
    ensures forall e ::
      e in Erased(entries, userId, entityId) <==> e in entries && !(e.userId == userId && e.entityId == entityId)
  {
    if entries != [] {
      assert entries == entries[..|entries| - 1] + [entries[|entries| - 1]];
      ErasedIsPart(entries[..|entries| - 1], userId, entityId);
    }
  }

  lemma PlacesNotEmpty(target: Target)
    requires IsTarget(target)
    ensures PlacesFor(target) != []
  {
  }

  /** Among grants up to `bound`, this user's level exceeds it by no more than one: the default level does not, and the
      sum with the strongest negative value does not wrap around. */
  predicate KeepsBound(config: Config, user: User, bound: nat) {
    user.id == 0 || bound >= 32000 || bound - 0x8000 <= DefaultLevel(config, user) <= bound + 1
  }

  /** What an assigner has to offer, at most. */
  lemma AuthorityWithin(config: Config, g: Grants, user: User, places: seq<Place>, required: Option<Int16>, now: int,
      bound: nat)
    requires places != [] && Within(g, bound)
    requires user.id != 0 ==> bound - 0x8000 <= DefaultLevel(config, user)
    ensures OptionalOrZero(Allowed(LevelAt(config, g, user, places, now), required))
      <= if user.id == 0 then 0 else Larger(bound, DefaultLevel(config, user))
  {
    hide DefaultLevel, LevelAt, Within;
    LevelAtShape(config, g, user, places, now);
    if user.id != 0 { LevelAtWithin(config, g, user, places, now, bound); }
    EffectiveBelowPositive(LevelAt(config, g, user, places, now));
  }

  lemma GrantedWithin(g: Grants, place: Place, userId: Id, value: GrantValue, now: int, expiresAt: int, bound: nat)
    requires Within(g, bound) && Abs(value) <= bound
    ensures Within(Granted(g, place, userId, value, now, expiresAt), bound)
  {
    ErasedIsPart(At(g, place.scope), userId, place.id);
    var g' := Granted(g, place, userId, value, now, expiresAt);
    forall scope: Scope, e | e in At(g', scope) ensures Abs(e.value) <= bound {
      if scope != place.scope {
        assert At(g', scope) == At(g, scope);
      }
    }
  }

  /** An authorised assignment, whatever its scope, keeps the bound; it stays strictly below a bound that covers the
      default level. */
  lemma AssignmentWithin(config: Config, g: Grants, r: Request, bound: nat)
    requires IsTarget(r.target) && KeepsBound(config, r.currentUser, bound) && Within(g, bound)
    ensures Within(After(config, g, r), bound)
    ensures Status(config, g, r) == OK && bound - 0x8000 <= DefaultLevel(config, r.currentUser) <= bound
      ==> Abs(r.newValue) < bound
  {
    hide DefaultLevel, LevelAt, Level, Within, Allowed;
    if Status(config, g, r) == OK {
      var places := PlacesFor(r.target);
      PlacesNotEmpty(r.target);
      if r.currentUser.id == 0 || bound - 0x8000 <= DefaultLevel(config, r.currentUser) {
        AuthorityWithin(config, g, r.currentUser, places, r.required, r.now, bound);
      }
      GrantedWithin(g, PlaceOf(r.target), r.targetUser.id, r.newValue, r.now, r.expiresAt, bound);
    }
  }

  function Run(config: Config, g: Grants, requests: seq<Request>): Grants
    requires forall r | r in requests :: IsTarget(r.target)
  {
    if requests == [] then g
    else After(config, Run(config, g, requests[..|requests| - 1]), requests[|requests| - 1])
  }

  /** Over every run, in any scopes, the largest magnitude never rises above the initial one and the capped default
      levels. */
  lemma {:induction false} RunNeverRaises(config: Config, g: Grants, requests: seq<Request>, bound: nat)
    requires forall r | r in requests :: IsTarget(r.target) && KeepsBound(config, r.currentUser, bound)
    requires Within(g, bound)
    ensures Within(Run(config, g, requests), bound)
  {
    if requests != [] {
      RunNeverRaises(config, g, requests[..|requests| - 1], bound);
      AssignmentWithin(config, Run(config, g, requests[..|requests| - 1]), requests[|requests| - 1], bound);
    }
  }

  ghost predicate RequestedBy(requests: seq<Request>, users: set<User>) {
    forall r | r in requests :: IsTarget(r.target) && r.currentUser in users
  }

  /** A request that raises the bound: with its default level, or with the sum of one negative grant that wraps around,
      the user exceeds what anyone has been granted. */
  lemma BoundRaised(config: Config, user: User, bound: nat) returns (g: Grants, r: Request)
    requires !KeepsBound(config, user, bound)
    ensures r.target == OnForum && r.currentUser == user && Within(g, bound) && !Within(After(config, g, r), bound)
  {
    var level := DefaultLevel(config, user);
    r := Request(OnForum, None, false, user, User(0, 0), bound + 1, 0, 0);
    if level > bound + 1 {
      g := NO_GRANTS;
    } else {
      g := NO_GRANTS.(forumWide := [Entry(user.id, 0, -0x8001 - level, 0, 0)]);
      assert g.forumWide[..0] == [];
      assert ToInt16(-0x8001) == 0x7FFF;
    }
    OnePlace(config, g, user, Place(ForumScope, 0), 0);
    var e := Entry(0, 0, bound + 1, 0, 0);
    assert e in At(After(config, g, r), ForumScope);
  }

  /** Nothing that a group of users requests ever raises the bound if and only if each of them keeps it. */
  lemma RunsKeepBound(config: Config, users: set<User>, bound: nat)
    ensures (forall u | u in users :: KeepsBound(config, u, bound))
      <==> forall g: Grants, requests: seq<Request> | Within(g, bound) && RequestedBy(requests, users) ::
             Within(Run(config, g, requests), bound)
  {
    hide KeepsBound, Within, After;
    if forall u | u in users :: KeepsBound(config, u, bound) {
      forall g: Grants, requests: seq<Request> | Within(g, bound) && RequestedBy(requests, users)
        ensures Within(Run(config, g, requests), bound)
      {
        RunNeverRaises(config, g, requests, bound);
      }
    } else {
      var u :| u in users && !KeepsBound(config, u, bound);
      var g, r := BoundRaised(config, u, bound);
      assert [r][..0] == [] && Run(config, g, []) == g;
      assert Run(config, g, [r]) == After(config, g, r);
      assert RequestedBy([r], users);
    }
  }

  /** Whoever assigns stays above whoever receives: at the place of the grant the new positive level is below the
      assigner's. */
  lemma AssigneeStaysBelow(config: Config, g: Grants, r: Request)
    requires IsTarget(r.target) && Status(config, g, r) == OK
    ensures var place := PlaceOf(r.target);
      OptionalOrZero(Level(config, At(After(config, g, r), place.scope), r.targetUser, place.id, r.now).positive)
      < OptionalOrZero(Allowed(LevelAt(config, g, r.currentUser, PlacesFor(r.target), r.now), r.required))
  {
    var place := PlaceOf(r.target);
    var entries := At(g, place.scope);
    LevelShape(config, entries, r.targetUser, place.id, r.now);
    OldValueBounds(Level(config, entries, r.targetUser, place.id, r.now));
    if r.newValue == 0 {
      ErasedLevel(config, entries, r.targetUser, place.id, r.now);
    } else {
      var after := entries + [Entry(r.targetUser.id, place.id, r.newValue, r.now, r.expiresAt)];
      assert after[..|after| - 1] == entries;
    }
  }

  lemma {:induction false} ErasedLevel(config: Config, entries: seq<Entry>, user: User, entity: Id, now: int)
    ensures var s := Level(config, Erased(entries, user.id, entity), user, entity, now);
      && s == Level(config, [], user, entity, now)
      && s.positive.Some? && s.positive.value <= OptionalOrZero(Level(config, entries, user, entity, now).positive)
  {
    LevelShape(config, entries, user, entity, now);
    if user.id != 0 && entries != [] {
      var front, e := entries[..|entries| - 1], entries[|entries| - 1];
      ErasedLevel(config, front, user, entity, now);
      var erased := Erased(entries, user.id, entity);
      if !(e.userId == user.id && e.entityId == entity) {
        assert erased[..|erased| - 1] == Erased(front, user.id, entity);
      } else {
        assert erased == Erased(front, user.id, entity);
      }
    }
  }

  lemma {:induction false} ErasedElsewhere(config: Config, entries: seq<Entry>, userId: Id, entityId: Id, user: User,
      entity: Id, now: int)
    requires userId != user.id || entityId != entity
    ensures Level(config, Erased(entries, userId, entityId), user, entity, now)
      == Level(config, entries, user, entity, now)
  {
    if user.id != 0 && entries != [] {
      var front, e := entries[..|entries| - 1], entries[|entries| - 1];
      ErasedElsewhere(config, front, userId, entityId, user, entity, now);
      var erased := Erased(entries, userId, entityId);
      if !(e.userId == userId && e.entityId == entityId) {
        assert erased[..|erased| - 1] == Erased(front, userId, entityId);
      } else {
        assert erased == Erased(front, userId, entityId);
      }
    }
  }

  /** What a grant does: it changes one user's level at one place only, to the default or by one more value. */
  lemma GrantEffect(config: Config, g: Grants, place: Place, userId: Id, value: GrantValue, now: int, expiresAt: int,
      user: User, at: Place, later: int)
    ensures var before, after := Level(config, At(g, at.scope), user, at.id, later),
        Level(config, At(Granted(g, place, userId, value, now, expiresAt), at.scope), user, at.id, later);
      after == if user.id == 0 || user.id != userId || at != place then before
               else if value == 0 then Standing(Some(DefaultLevel(config, user)), None)
               else if 0 < expiresAt < later then before else Merge(before, OfValue(value))
  {
    var entries := At(g, place.scope);
    if value == 0 {
      if at.scope == place.scope {
        if user.id == userId && at == place {
          ErasedLevel(config, entries, user, place.id, later);
        } else {
          ErasedElsewhere(config, entries, userId, place.id, user, at.id, later);
        }
      }
    } else if at.scope == place.scope {
      var all := entries + [Entry(userId, place.id, value, now, expiresAt)];
      assert all[..|all| - 1] == entries;
      MergeLaws(Level(config, entries, user, at.id, later), NOTHING, NOTHING);
    }
  }
}

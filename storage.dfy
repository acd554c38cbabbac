/**
 * The in-memory store `MemStorage`: activities keyed by id, users keyed by an
 * id the store allocates from a counter.  Both tables are JavaScript `Map`s,
 * so they enumerate in insertion order.  The TypeScript and the JavaScript
 * server declare the same class; they differ only in the seed list.
 */
module Storage {
  import opened Wrappers
  import opened Schema
  import JsMap

  /** The error `toggleActivityDiscount` throws, with the message "Activity not found". */
  datatype StoreError = ActivityNotFound

  /** The seed list of the TypeScript server. */
  const MockActivities: seq<Activity> := [
    Activity(1, "Mountain Biking Adventure", "Exciting mountain trails with professional guides",
      "Adventure", "https://images.unsplash.com/photo-1502086223501-7ea6ecd79368", 100, 25, false),
    Activity(2, "Yoga Workshop", "Relaxing yoga sessions with certified instructors",
      "Wellness", "https://images.unsplash.com/photo-1571008887538-b36bb32f4571", 50, 20, false),
    Activity(3, "Cooking Class", "Learn to cook authentic Italian cuisine",
      "Education", "https://images.unsplash.com/photo-1540474211005-7c8a448f69e6", 80, 15, false),
    Activity(4, "Theater Show", "Broadway-style musical performance",
      "Entertainment", "https://images.unsplash.com/photo-1540539234-c14a20fb7c7b", 120, 30, false),
    Activity(5, "Art Gallery Tour", "Guided tour of contemporary art exhibits",
      "Arts", "https://images.unsplash.com/photo-1596066190600-3af9aadaaea1", 40, 50, false),
    Activity(6, "Tennis Lessons", "Private tennis coaching sessions",
      "Sports", "https://images.unsplash.com/photo-1501604914713-3decf20bf804", 90, 35, false),
    Activity(7, "City Food Tour", "Explore local cuisine and restaurants",
      "Dining", "https://images.unsplash.com/photo-1487113991643-86bfb4c9de2d", 70, 40, false),
    Activity(8, "Photography Workshop", "Learn photography from professionals",
      "Education", "https://images.unsplash.com/photo-1476055090065-a605fefd840e", 150, 45, false)
  ]

  /** The seed list of the JavaScript server as written: its first entry only. */
  const JsMockActivities: seq<Activity> := [MockActivities[0]]

  /** `mockActivities.map(a => [a.id, a])` */
  function IdPairs(seed: seq<Activity>): (pairs: seq<(int, Activity)>)
    ensures |pairs| == |seed|
    ensures forall i :: 0 <= i < |seed| ==> pairs[i] == (seed[i].id, seed[i])
  {
    seq(|seed|, i requires 0 <= i < |seed| => (seed[i].id, seed[i]))
  }

  /** The activities table right after construction. */
  function SeedTable(seed: seq<Activity>): (m: JsMap.OrderedMap<Activity>)
    ensures JsMap.Valid(m)
    ensures |m.keys| <= |seed|
    ensures forall i :: 0 <= i < |seed| ==> seed[i].id in m.entries
  {
    JsMap.FromPairs(IdPairs(seed))
  }

  /** Every activity is stored under its own id. */
  ghost predicate KeyedById(m: JsMap.OrderedMap<Activity>) {
    forall k :: k in m.entries ==> m.entries[k].id == k
  }

  /** No two seed activities share an id. */
  predicate DistinctIds(seed: seq<Activity>) {
    forall i, j :: 0 <= i < j < |seed| ==> seed[i].id != seed[j].id
  }

  lemma {:induction false} SeedTableKeyedById(seed: seq<Activity>)
    ensures KeyedById(SeedTable(seed))
  {
    if seed != [] {
      var init := seed[..|seed| - 1];
      SeedTableKeyedById(init);
      assert IdPairs(seed)[..|seed| - 1] == IdPairs(init);
    }
  }

  /** With distinct ids the seeded table lists the seed exactly, in seed order. */
  lemma SeedTableLists(seed: seq<Activity>)
    requires DistinctIds(seed)
    ensures SeedTable(seed).keys == seq(|seed|, i requires 0 <= i < |seed| => seed[i].id)
    ensures JsMap.Values(SeedTable(seed)) == seed
  {
    var pairs := IdPairs(seed);
    JsMap.FromDistinctPairs(pairs);
    assert JsMap.Values(SeedTable(seed)) == seq(|pairs|, i requires 0 <= i < |pairs| => pairs[i].1);
  }

  /**
   * The TypeScript seed: eight activities with ids 1 to 8, all inactive, every
   * discount a percentage, every category one of the client's categories.
   */
  lemma MockActivitiesRecords()
    ensures |MockActivities| == 8
    ensures forall i :: 0 <= i < 8 ==> MockActivities[i].id == i + 1
    ensures forall i :: 0 <= i < 8 ==>
      !MockActivities[i].isActive && 0 <= MockActivities[i].discountPercentage <= 100
    ensures forall i :: 0 <= i < 8 ==> MockActivities[i].category in Categories
  {
  }

  /** A seed numbered 1, 2, 3, ... in order is listed exactly, under those keys. */
  lemma NumberedSeedLists(seed: seq<Activity>)
    requires forall i :: 0 <= i < |seed| ==> seed[i].id == i + 1
    ensures |SeedTable(seed).keys| == |seed|
    ensures forall i :: 0 <= i < |seed| ==> SeedTable(seed).keys[i] == i + 1
    ensures JsMap.Values(SeedTable(seed)) == seed
  {
    SeedTableLists(seed);
  }

  /** The TypeScript seed is numbered 1 to 8 in order. */
  lemma MockActivitiesNumbered()
    ensures |MockActivities| == 8
    ensures forall i :: 0 <= i < |MockActivities| ==> MockActivities[i].id == i + 1
  {
    MockActivitiesRecords();
  }

  /**
   * The TypeScript server starts with its eight seed activities listed in
   * seed order, under the keys 1 to 8.
   */
  lemma MockActivitiesListed()
    ensures |SeedTable(MockActivities).keys| == 8
    ensures forall i :: 0 <= i < 8 ==> SeedTable(MockActivities).keys[i] == i + 1
    ensures JsMap.Values(SeedTable(MockActivities)) == MockActivities
  {
    MockActivitiesNumbered();
    NumberedSeedLists(MockActivities);
  }

  /** The JavaScript seed as written holds activity 1 only, inactive. */
  lemma JsMockActivitiesFacts()
    ensures SeedTable(JsMockActivities).keys == [1]
    ensures JsMap.Values(SeedTable(JsMockActivities)) == [MockActivities[0]]
    ensures !MockActivities[0].isActive
  {
    SeedTableLists(JsMockActivities);
  }

  /** `{ ...activity, isActive: !activity.isActive }` */
  function Flip(a: Activity): (r: Activity)
    ensures r.isActive == !a.isActive
    ensures r.(isActive := a.isActive) == a
  {
    a.(isActive := !a.isActive)
  }

  /** What `toggleActivityDiscount(id)` returns or throws, and the table afterwards. */
  datatype Toggled = Toggled(result: Result<Activity, StoreError>, activities: JsMap.OrderedMap<Activity>)

  /**
   * `toggleActivityDiscount(id)` on a table: on an unknown id it throws and
   * changes nothing; otherwise it stores and returns the record with
   * `isActive` negated, every other field, every other entry and the order
   * of the keys left as they were.
   */
  function ToggleIn(acts: JsMap.OrderedMap<Activity>, id: int): (t: Toggled)
    requires JsMap.Valid(acts)
    ensures JsMap.Valid(t.activities)
    ensures id !in acts.entries <==> t.result.Failure?
    ensures id !in acts.entries ==> t.result == Failure(ActivityNotFound) && t.activities == acts
    ensures id in acts.entries ==>
      var old_ := acts.entries[id];
      && id in t.activities.entries
      && t.result == Success(t.activities.entries[id])
      && t.result.value.isActive == !old_.isActive
      && t.result.value == old_.(isActive := t.result.value.isActive)
    ensures t.activities.keys == acts.keys
    ensures t.activities.entries.Keys == acts.entries.Keys
    ensures forall k :: k in acts.entries && k != id ==> t.activities.entries[k] == acts.entries[k]
  {
    match JsMap.Get(acts, id)
    case None => Toggled(Failure(ActivityNotFound), acts)
    case Some(activity) =>
      var updated := Flip(activity);
      Toggled(Success(updated), JsMap.Set(acts, id, updated))
  }

  /** Toggling keeps every activity stored under its own id. */
  lemma ToggleKeepsKeyedById(acts: JsMap.OrderedMap<Activity>, id: int)
    requires JsMap.Valid(acts) && KeyedById(acts)
    ensures KeyedById(ToggleIn(acts, id).activities)
    ensures ToggleIn(acts, id).result.Success? ==> ToggleIn(acts, id).result.value.id == id
  {
  }

  /** Toggling the same id twice gives back the original table and the original flag. */
  lemma ToggleTwiceRestores(acts: JsMap.OrderedMap<Activity>, id: int)
    requires JsMap.Valid(acts)
    ensures ToggleIn(ToggleIn(acts, id).activities, id).activities == acts
    ensures id in acts.entries ==>
      ToggleIn(ToggleIn(acts, id).activities, id).result == Success(acts.entries[id])
  {
    if id in acts.entries {
      var once := ToggleIn(acts, id).activities;
      var twice := ToggleIn(once, id).activities;
      assert twice.entries == acts.entries;
    }
  }

  /**
   * `getActivities()` after a toggle lists the same activities in the same
   * order, with the toggled one flipped in place.
   */
  lemma ToggleKeepsListingOrder(acts: JsMap.OrderedMap<Activity>, id: int)
    requires JsMap.Valid(acts)
    ensures |JsMap.Values(ToggleIn(acts, id).activities)| == |JsMap.Values(acts)|
    ensures forall i :: 0 <= i < |acts.keys| ==>
      JsMap.Values(ToggleIn(acts, id).activities)[i] ==
        if acts.keys[i] == id then Flip(JsMap.Values(acts)[i]) else JsMap.Values(acts)[i]
  {
  }

  /** `users[i]` is named `name` and no user before it is. */
  predicate FirstMatchAt(users: seq<User>, name: string, i: int)
    requires 0 <= i < |users|
  {
    users[i].username == name && forall j :: 0 <= j < i ==> users[j].username != name
  }

  /**
   * `Array.from(users.values()).find(u => u.username === name)`: the first
   * user, in insertion order, whose username equals `name` exactly.
   */
  function FirstByUsername(users: seq<User>, name: string): (r: Option<User>)
    ensures r.None? <==> forall i :: 0 <= i < |users| ==> users[i].username != name
    ensures r.Some? ==> exists i :: 0 <= i < |users| && users[i] == r.value && FirstMatchAt(users, name, i)
  {
    if users == [] then None
    else if users[0].username == name then Some(users[0])
    else
      var r := FirstByUsername(users[1..], name);
      assert r.Some? ==> exists i :: 1 <= i < |users| && users[i] == r.value && FirstMatchAt(users, name, i)
      by {
        if r.Some? {
          var i :| 0 <= i < |users[1..]| && users[1..][i] == r.value && FirstMatchAt(users[1..], name, i);
          assert users[i + 1] == r.value;
          forall j | 1 <= j < i + 1 ensures users[j].username != name {
            assert users[j] == users[1..][j - 1];
          }
        }
      }
      r
  }

  /** Usernames are pairwise distinct across the users table. */
  ghost predicate UniqueUsernames(users: JsMap.OrderedMap<User>) {
    forall k1, k2 :: k1 in users.entries && k2 in users.entries && k1 != k2 ==>
      users.entries[k1].username != users.entries[k2].username
  }

  /** Some user in the table has username `name`. */
  ghost predicate HasUsername(users: JsMap.OrderedMap<User>, name: string) {
    exists k :: k in users.entries && users.entries[k].username == name
  }

  /** The lookup by username finds a user exactly when one in the table has that name. */
  lemma FirstByUsernameFinds(users: JsMap.OrderedMap<User>, name: string)
    requires JsMap.Valid(users)
    ensures FirstByUsername(JsMap.Values(users), name).Some? <==> HasUsername(users, name)
    ensures FirstByUsername(JsMap.Values(users), name).Some? ==>
      FirstByUsername(JsMap.Values(users), name).value in users.entries.Values
  {
    var vs := JsMap.Values(users);
    var r := FirstByUsername(vs, name);
    if HasUsername(users, name) {
      var k :| k in users.entries && users.entries[k].username == name;
      var i :| 0 <= i < |users.keys| && users.keys[i] == k;
      assert vs[i].username == name;
    }
    if r.Some? {
      var i :| 0 <= i < |vs| && vs[i] == r.value && r.value.username == name;
      assert users.entries[users.keys[i]] == r.value;
    }
  }

  /**
   * Adding a user whose name no stored user has keeps usernames distinct.
   * The store itself does not check this (see StoreAllowsDuplicateUsernames);
   * the register handler does.
   */
  lemma AddFreshUsernameKeepsUnique(users: JsMap.OrderedMap<User>, id: int, u: User)
    requires JsMap.Valid(users) && UniqueUsernames(users)
    requires id !in users.entries
    requires FirstByUsername(JsMap.Values(users), u.username).None?
    ensures UniqueUsernames(JsMap.Set(users, id, u))
  {
    FirstByUsernameFinds(users, u.username);
  }

  /** `createUser` performs no uniqueness check: a second user with a taken name is stored. */
  lemma StoreAllowsDuplicateUsernames(users: JsMap.OrderedMap<User>, id: int, u: User)
    requires JsMap.Valid(users) && id !in users.entries
    requires HasUsername(users, u.username)
    ensures !UniqueUsernames(JsMap.Set(users, id, u))
  {
    var k :| k in users.entries && users.entries[k].username == u.username;
    var r := JsMap.Set(users, id, u);
    assert k in r.entries && id in r.entries && k != id;
  }

  /** Keys 1, 2, ..., n - 1 in that order. */
  function IdsBelow(n: int): (ids: seq<int>)
    requires n >= 1
    ensures |ids| == n - 1 && forall i :: 0 <= i < n - 1 ==> ids[i] == i + 1
  {
    seq(n - 1, i requires 0 <= i < n - 1 => i + 1)
  }

  class MemStorage {
    var activities: JsMap.OrderedMap<Activity>
    var users: JsMap.OrderedMap<User>
    var currentUserId: int

    /**
     * Both tables are well formed, each activity is stored under its own id,
     * and the users were given the ids 1, 2, ... in insertion order, every one
     * below the counter.
     */
    ghost predicate Valid()
      reads this
    {
      && JsMap.Valid(activities)
      && KeyedById(activities)
      && JsMap.Valid(users)
      && currentUserId >= 1
      && users.keys == IdsBelow(currentUserId)
      && (forall k :: k in users.entries ==> users.entries[k].id == k)
    }

    /** `new MemStorage()`, seeded with `seed`; no users, the counter at 1. */
    constructor (seed: seq<Activity>)
      ensures Valid()
      ensures activities == SeedTable(seed)
      ensures users == JsMap.Empty() && currentUserId == 1
    {
      activities := SeedTable(seed);
      users := JsMap.Empty();
      currentUserId := 1;
      SeedTableKeyedById(seed);
    }

    /** `getUser(id)`: the user stored under `id`, whose own id is `id`, or none. */
    method GetUser(id: int) returns (u: Option<User>)
      requires Valid()
      ensures u.Some? <==> 1 <= id < currentUserId
      ensures u.Some? ==> id in users.entries && u.value == users.entries[id] && u.value.id == id
    {
      if 1 <= id < currentUserId {
        assert users.keys[id - 1] == id;
      }
      u := JsMap.Get(users, id);
    }

    /** `getUserByUsername(name)`: a linear search for the first user with that name. */
    method GetUserByUsername(name: string) returns (u: Option<User>)
      requires Valid()
      ensures u == FirstByUsername(JsMap.Values(users), name)
      ensures u.Some? <==> HasUsername(users, name)
      ensures u.Some? ==> u.value.username == name && u.value in users.entries.Values
    {
      var all := JsMap.Values(users);
      var i := 0;
      u := None;
      while i < |all|
        invariant 0 <= i <= |all|
        invariant forall j :: 0 <= j < i ==> all[j].username != name
        invariant FirstByUsername(all, name) == FirstByUsername(all[i..], name)
      {
        if all[i].username == name {
          u := Some(all[i]);
          assert all[i..][0] == all[i];
          break;
        }
        assert all[i..][1..] == all[i + 1..];
        i := i + 1;
      }
      FirstByUsernameFinds(users, name);
    }

    /**
     * `createUser(ins)`: `{ ...ins, id }` with the counter's value as id,
     * which overwrites an `id` field of `ins`; the user is appended to the
     * users table, and the counter moves on by one.
     */
    method CreateUser(ins: InsertUser) returns (u: User)
      requires Valid()
      modifies this
      ensures Valid()
      ensures u == User(old(currentUserId), ins.username, ins.password, ins.extras - {"id"})
      ensures old(currentUserId) !in old(users.entries)
      ensures users == JsMap.Set(old(users), u.id, u)
      ensures JsMap.Values(users) == JsMap.Values(old(users)) + [u]
      ensures currentUserId == old(currentUserId) + 1
      ensures activities == old(activities)
    {
      var id := currentUserId;
      currentUserId := currentUserId + 1;
      u := User(id, ins.username, ins.password, ins.extras - {"id"});
      assert id !in users.keys;
      JsMap.SetAbsentAppends(users, id, u);
      users := JsMap.Set(users, id, u);
      assert users.keys == IdsBelow(currentUserId);
    }

    /** `getActivities()`: every activity, in insertion order. */
    method GetActivities() returns (list: seq<Activity>)
      requires Valid()
      ensures |list| == |activities.keys|
      ensures forall i :: 0 <= i < |list| ==> list[i] == activities.entries[activities.keys[i]]
      ensures forall k :: k in activities.entries <==> exists i :: 0 <= i < |list| && list[i].id == k
    {
      list := JsMap.Values(activities);
      forall k | k in activities.entries
        ensures exists i :: 0 <= i < |list| && list[i].id == k
      {
        var i :| 0 <= i < |activities.keys| && activities.keys[i] == k;
        assert list[i].id == k;
      }
    }

    /** `getActivityById(id)`: the activity stored under `id`, or none. */
    method GetActivityById(id: int) returns (a: Option<Activity>)
      requires Valid()
      ensures a.Some? <==> id in activities.entries
      ensures a.Some? ==> a.value == activities.entries[id] && a.value.id == id
    {
      a := JsMap.Get(activities, id);
    }

    /**
     * `toggleActivityDiscount(id)`: a read-modify-write of the activities
     * table, as `ToggleIn` describes it; the users table and the counter are
     * not touched.
     */
    method ToggleActivityDiscount(id: int) returns (r: Result<Activity, StoreError>)
      requires Valid()
      modifies this
      ensures Valid()
      ensures Toggled(r, activities) == ToggleIn(old(activities), id)
      ensures users == old(users) && currentUserId == old(currentUserId)
    {
      var t := ToggleIn(activities, id);
      ToggleKeepsKeyedById(activities, id);
      activities, r := t.activities, t.result;
    }
  }

  /**
   * Seed activity 1 toggled twice on a fresh TypeScript store: the first
   * toggle answers it active, the second inactive again, and the table is
   * back to the seeded one.
   */
  method ToggleScenario() returns (first: Result<Activity, StoreError>, second: Result<Activity, StoreError>)
    ensures first == Success(MockActivities[0].(isActive := true))
    ensures second == Success(MockActivities[0])
  {
    var store := new MemStorage(MockActivities);
    MockActivitiesListed();
    assert store.activities.keys[0] == 1;
    assert store.activities.entries[1] == MockActivities[0];
    first := store.ToggleActivityDiscount(1);
    second := store.ToggleActivityDiscount(1);
    ToggleTwiceRestores(SeedTable(MockActivities), 1);
    assert store.activities == SeedTable(MockActivities);
  }
}

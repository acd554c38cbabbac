/**
 * The routes of both servers: `/api/user-exists` (JavaScript only), the
 * authentication gate in front of every `/api/activities` path (JavaScript
 * only), the activity listing and the toggle, whose thrown "Activity not
 * found" becomes a 404.
 */
module Routes {
  import opened Wrappers
  import opened Schema
  import opened Http
  import JsMap
  import Storage
  import Auth

  /** `parseInt(req.params.id)`: a number, or NaN for a path that does not start with digits. */
  datatype PathId = Number(n: int) | NaN

  /** `POST /api/user-exists`: 200 {exists: true} when some user has the name, else 404 {exists: false}. */
  method UserExists(store: Storage.MemStorage, username: string) returns (resp: Response)
    requires store.Valid()
    ensures Storage.HasUsername(store.users, username) ==> resp == Response(200, ExistsJson(true))
    ensures !Storage.HasUsername(store.users, username) ==> resp == Response(404, ExistsJson(false))
  {
    var user := store.GetUserByUsername(username);
    if user.Some? {
      resp := Response(200, ExistsJson(true));
    } else {
      resp := Response(404, ExistsJson(false));
    }
  }

  /** The JavaScript server refuses every `/api/activities` request without a logged-in user. */
  ghost predicate Gated(build: Build, users: JsMap.OrderedMap<User>, session: Auth.Session) {
    build == JavaScriptServer && !Auth.Authenticated(users, session)
  }

  /** The middleware on `/api/activities`: true when the request may go on to its handler. */
  method ActivitiesGate(store: Storage.MemStorage, build: Build, session: Auth.Session) returns (pass: bool)
    requires store.Valid()
    ensures pass <==> !Gated(build, store.users, session)
  {
    if build == TypeScriptServer {
      return true;
    }
    var user := Auth.DeserializeUser(store, session);
    pass := user.Some?;
  }

  /** `GET /api/activities`: 401 when gated, else 200 with every activity in insertion order. */
  method ListActivities(store: Storage.MemStorage, build: Build, session: Auth.Session) returns (resp: Response)
    requires store.Valid()
    ensures Gated(build, store.users, session) ==> resp == Response(401, MessageJson("Unauthorized"))
    ensures !Gated(build, store.users, session) ==>
      resp == Response(200, ActivityListJson(JsMap.Values(store.activities)))
  {
    var pass := ActivitiesGate(store, build, session);
    if !pass {
      return Response(401, MessageJson("Unauthorized"));
    }
    var activities := store.GetActivities();
    assert activities == JsMap.Values(store.activities);
    resp := Response(200, ActivityListJson(activities));
  }

  /**
   * `POST /api/activities/:id/toggle`.  When gated: 401 and nothing changes.
   * Otherwise an id the store holds answers 200 with the flipped activity,
   * and any other id, NaN included, answers 404 "Activity not found" and
   * changes nothing.  The users table is never touched.
   */
  method ToggleActivity(store: Storage.MemStorage, build: Build, session: Auth.Session, id: PathId)
    returns (resp: Response)
    requires store.Valid()
    modifies store
    ensures store.Valid()
    ensures store.users == old(store.users) && store.currentUserId == old(store.currentUserId)
    ensures Gated(build, old(store.users), session) ==>
      resp == Response(401, MessageJson("Unauthorized")) && store.activities == old(store.activities)
    ensures !Gated(build, old(store.users), session) && (id.NaN? || id.n !in old(store.activities.entries)) ==>
      resp == Response(404, MessageJson("Activity not found")) && store.activities == old(store.activities)
    ensures !Gated(build, old(store.users), session) && id.Number? && id.n in old(store.activities.entries) ==>
      var toggled := Storage.ToggleIn(old(store.activities), id.n);
      && resp == Response(200, ActivityJson(Storage.Flip(old(store.activities.entries[id.n]))))
      && store.activities == toggled.activities
  {
    var pass := ActivitiesGate(store, build, session);
    if !pass {
      return Response(401, MessageJson("Unauthorized"));
    }
    match id
    case NaN =>
      // every key of the table is an integer, so looking NaN up finds nothing
      resp := Response(404, MessageJson("Activity not found"));
    case Number(n) =>
      var result := store.ToggleActivityDiscount(n);
      match result
      case Failure(_) => resp := Response(404, MessageJson("Activity not found"));
      case Success(activity) => resp := Response(200, ActivityJson(activity));
  }
}

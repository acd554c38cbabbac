/** What a route handler answers, and which of the two servers is running. */
module Http {
  import opened Schema

  /**
   * The repository holds two servers: the TypeScript one (`auth.ts`,
   * `routes.ts`, `storage.ts`) and the JavaScript one (`auth.js`, `routes.js`,
   * `storage.js`).  Where they behave differently a handler takes the build.
   */
  datatype Build = TypeScriptServer | JavaScriptServer

  datatype Body =
    | MessageJson(message: string)              // { message }
    | UserJson(user: User)                      // the user record as stored
    | ActivityJson(activity: Activity)
    | ActivityListJson(activities: seq<Activity>)
    | ExistsJson(found: bool)                   // { exists }
    | StatusText                                // `res.sendStatus(code)`
    | ErrorPage                                 // `next(err)`: the default error handler

  datatype Response = Response(status: int, body: Body)
}

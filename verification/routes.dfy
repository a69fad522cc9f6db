/**
  The HTTP surface for projects and the résumé link: the shared-secret gate
  `checkAdminSecret` and the seven handlers, as one transition
  `Step(config, store, request, freshId, now) -> (store', response)`.
  A request arrives already matched to its route; `freshId` and `now` stand
  for the database's generated UUID and clock.
 */
module Routes {
  import opened Wrappers
  import opened Json
  import opened Schema
  import Storage

  /** The secret used when the `ADMIN_SECRET` environment variable is unset or empty. */
  const DefaultAdminSecret := "admin123"

  /** The settings key under which the résumé link is stored. */
  const ResumeKey := "resumeUrl"

  /** Deployment configuration: the `ADMIN_SECRET` environment variable. */
  datatype Config = Config(adminSecretEnv: Option<string>)

  /** `process.env.ADMIN_SECRET || "admin123"`. */
  function AdminSecret(cfg: Config): (s: string)
    ensures s != ""
    ensures cfg.adminSecretEnv.Some? && cfg.adminSecretEnv.value != "" ==> s == cfg.adminSecretEnv.value
    ensures cfg.adminSecretEnv.None? || cfg.adminSecretEnv.value == "" ==> s == DefaultAdminSecret
  {
    match cfg.adminSecretEnv
    case Some(v) => if v != "" then v else DefaultAdminSecret
    case None => DefaultAdminSecret
  }

  datatype Route =
    | ListProjects            // GET    /api/projects
    | GetProject(id: string)  // GET    /api/projects/:id
    | CreateProject           // POST   /api/projects
    | UpdateProject(id: string) // PUT  /api/projects/:id
    | DeleteProject(id: string) // DELETE /api/projects/:id
    | GetResume               // GET    /api/resume
    | PutResume               // PUT    /api/resume

  /** The routes mounted behind `checkAdminSecret`. */
  predicate IsGated(route: Route) {
    route.CreateProject? || route.UpdateProject? || route.DeleteProject? || route.PutResume?
  }

  /** Header names are lower-case, as Node delivers them. */
  datatype Request = Request(
    route: Route,
    headers: map<string, string>,
    query: map<string, string>,
    body: Json)

  datatype Body =
    | ProjectJson(project: Project)
    | ProjectListJson(projects: seq<Project>)
    | MessageJson(message: string)
    | InvalidDataJson(message: string, errors: seq<Issue>)
    | ResumeJson(resumeUrl: Option<string>)
    | ResumeSavedJson(message: string, savedUrl: string)

  datatype Response = Response(status: int, body: Body)

  const Unauthorized := Response(401, MessageJson("Unauthorized"))
  const ProjectNotFound := Response(404, MessageJson("Project not found"))
  const ResumeUrlRequired := Response(400, MessageJson("Resume URL is required"))

  /** `req.headers["x-admin-secret"] || req.query.secret`: an empty header
      falls through to the query parameter. */
  function ProvidedSecret(req: Request): Option<string> {
    if "x-admin-secret" in req.headers && req.headers["x-admin-secret"] != "" then
      Some(req.headers["x-admin-secret"])
    else if "secret" in req.query then Some(req.query["secret"])
    else None
  }

  /** `checkAdminSecret`: `Some(401)` ends the request; `None` calls the handler. */
  function CheckAdminSecret(cfg: Config, req: Request): (r: Option<Response>)
    ensures r.Some? ==> r.value == Unauthorized
    ensures r.None? <==>
      if "x-admin-secret" in req.headers && req.headers["x-admin-secret"] != ""
      then req.headers["x-admin-secret"] == AdminSecret(cfg)
      else "secret" in req.query && req.query["secret"] == AdminSecret(cfg)
  {
    if ProvidedSecret(req) != Some(AdminSecret(cfg)) then Some(Unauthorized) else None
  }

  /** The header, when present and non-empty, decides alone: a right query
      secret does not rescue a wrong header. */
  lemma HeaderTakesPrecedence(cfg: Config, req: Request)
    requires "x-admin-secret" in req.headers && req.headers["x-admin-secret"] != ""
    ensures CheckAdminSecret(cfg, req).None? <==> req.headers["x-admin-secret"] == AdminSecret(cfg)
  {
  }

  /** `res.json({ resumeUrl: resumeSetting?.value || null })`. */
  function StoredResumeUrl(st: Storage.Store): (r: Option<string>)
    ensures r.Some? ==> r.value != ""
    ensures r.None? <==> Storage.GetSetting(st, ResumeKey).None? || Storage.GetSetting(st, ResumeKey).value.value == ""
    ensures r.Some? ==> r.value == Storage.GetSetting(st, ResumeKey).value.value
  {
    match Storage.GetSetting(st, ResumeKey)
    case Some(s) => if s.value != "" then Some(s.value) else None
    case None => None
  }

  /** The handlers, reached once the gate (if any) has let the request through. */
  function Handle(st: Storage.Store, req: Request, freshId: string, now: int): (Storage.Store, Response) {
    match req.route
    case ListProjects =>
      (st, Response(200, ProjectListJson(Storage.GetAllProjects(st))))
    case GetProject(id) =>
      match Storage.GetProject(st, id) {
        case None => (st, ProjectNotFound)
        case Some(p) => (st, Response(200, ProjectJson(p)))
      }
    case CreateProject =>
      match ParseNewProject(req.body) {
        case Err(issues) => (st, Response(400, InvalidDataJson("Invalid project data", issues)))
        case Ok(n) =>
          match Storage.CreateProject(st, n, freshId, now) {
            case Err(_) => (st, Response(500, MessageJson("Failed to create project")))
            case Ok((st', p)) => (st', Response(201, ProjectJson(p)))
          }
      }
    case UpdateProject(id) =>
      match ParseProjectPatch(req.body) {
        case Err(issues) => (st, Response(400, InvalidDataJson("Invalid project data", issues)))
        case Ok(patch) =>
          var (st', r) := Storage.UpdateProject(st, id, patch);
          match r {
            case None => (st', ProjectNotFound)
            case Some(p) => (st', Response(200, ProjectJson(p)))
          }
      }
    case DeleteProject(id) =>
      var (st', deleted) := Storage.DeleteProject(st, id);
      if !deleted then (st', ProjectNotFound)
      else (st', Response(200, MessageJson("Project deleted successfully")))
    case GetResume =>
      (st, Response(200, ResumeJson(StoredResumeUrl(st))))
    case PutResume =>
      match Field(req.body, "resumeUrl") {
        case Some(JString(url)) =>
          if url == "" then (st, ResumeUrlRequired)
          else
            var st' := Storage.SetSetting(st, ResumeKey, url).0;
            (st', Response(200, ResumeSavedJson("Resume URL updated successfully", url)))
        case _ => (st, ResumeUrlRequired)
      }
  }

  /** One request: the gate for the admin routes, then the handler. */
  function Step(cfg: Config, st: Storage.Store, req: Request, freshId: string, now: int): (Storage.Store, Response) {
    if IsGated(req.route) then
      match CheckAdminSecret(cfg, req) {
        case Some(rejection) => (st, rejection)
        case None => Handle(st, req, freshId, now)
      }
    else Handle(st, req, freshId, now)
  }

  // ---------------------------------------------------------------------------
  // Properties
  // ---------------------------------------------------------------------------

  /** Every admin route without the right secret answers 401 and leaves the
      store exactly as it was. */
  lemma GateShortCircuits(cfg: Config, st: Storage.Store, req: Request, freshId: string, now: int)
    requires IsGated(req.route)
    requires ProvidedSecret(req) != Some(AdminSecret(cfg))
    ensures Step(cfg, st, req, freshId, now) == (st, Unauthorized)
  {
  }

  /** The public routes never write. */
  lemma ReadsDoNotWrite(cfg: Config, st: Storage.Store, req: Request, freshId: string, now: int)
    requires !IsGated(req.route)
    ensures Step(cfg, st, req, freshId, now).0 == st
    ensures Step(cfg, st, req, freshId, now).1.status in {200, 404}
  {
  }

  /** Every request keeps the store's constraints. */
  lemma StepPreservesValid(cfg: Config, st: Storage.Store, req: Request, freshId: string, now: int)
    requires Storage.Valid(st)
    ensures Storage.Valid(Step(cfg, st, req, freshId, now).0)
  {
    HandlePreservesValid(st, req, freshId, now);
  }

  /** Past the gate, every handler keeps the store's keys unique. */
  lemma HandlePreservesValid(st: Storage.Store, req: Request, freshId: string, now: int)
    requires Storage.Valid(st)
    ensures Storage.Valid(Handle(st, req, freshId, now).0)
  {
    match req.route
    case CreateProject => CreatePreservesValid(st, req, freshId, now);
    case UpdateProject(id) =>
      match ParseProjectPatch(req.body) {
        case Err(_) =>
        case Ok(patch) => Storage.UpdateProjectSpec(st, id, patch);
      }
    case DeleteProject(id) => Storage.DeleteProjectSpec(st, id);
    case PutResume =>
      match Field(req.body, "resumeUrl") {
        case Some(JString(url)) => Storage.SetSettingSpec(st, ResumeKey, url);
        case _ =>
      }
    case _ =>
  }

  lemma CreatePreservesValid(st: Storage.Store, req: Request, freshId: string, now: int)
    requires Storage.Valid(st) && req.route.CreateProject?
    ensures Storage.Valid(Handle(st, req, freshId, now).0)
  {
    match ParseNewProject(req.body) {
      case Err(_) =>
      case Ok(n) =>
        if Storage.GetProject(st, freshId).None? {
          Storage.CreateThenGet(st, n, freshId, now);
        }
    }
  }

  /** `GET /api/projects/:id`: 404 exactly when the project is absent, else 200
      with the stored record. */
  lemma GetProjectRoute(cfg: Config, st: Storage.Store, req: Request, freshId: string, now: int)
    requires req.route.GetProject?
    ensures var (st', resp) := Step(cfg, st, req, freshId, now);
      && st' == st
      && (resp.status == 404 <==> Storage.GetProject(st, req.route.id).None?)
      && (resp.status == 200 ==> resp.body == ProjectJson(Storage.GetProject(st, req.route.id).value))
  {
  }

  /** `POST /api/projects` past the gate: an invalid body is a 400 that does not
      touch the store; a valid one creates the row with the server's id and
      time, answers 201 with it, and the row is then readable by its id and
      listed exactly once. */
  lemma CreateProjectRoute(cfg: Config, st: Storage.Store, req: Request, freshId: string, now: int)
    requires Storage.Valid(st)
    requires req.route.CreateProject?
    requires ProvidedSecret(req) == Some(AdminSecret(cfg))
    requires Storage.GetProject(st, freshId).None?
    ensures var (st', resp) := Step(cfg, st, req, freshId, now);
      && (ParseNewProject(req.body).Err? ==> resp.status == 400 && st' == st)
      && (ParseNewProject(req.body).Ok? ==>
            var p := ProjectRow(ParseNewProject(req.body).value, freshId, now);
            && resp == Response(201, ProjectJson(p))
            && Storage.GetProject(st', freshId) == Some(p)
            && multiset(Storage.GetAllProjects(st'))[p] == 1)
  {
    assert Step(cfg, st, req, freshId, now) == Handle(st, req, freshId, now);
    match ParseNewProject(req.body) {
      case Err(_) =>
      case Ok(n) =>
        Storage.CreateThenGet(st, n, freshId, now);
        var (st', p) := Storage.CreateProject(st, n, freshId, now).value;
        assert Handle(st, req, freshId, now) == (st', Response(201, ProjectJson(p)));
    }
  }

  /** `PUT /api/projects/:id` past the gate: 400 for an invalid body, 404 for an
      unknown id (store unchanged), otherwise 200 with the merged record. */
  lemma UpdateProjectRoute(cfg: Config, st: Storage.Store, req: Request, freshId: string, now: int)
    requires Storage.Valid(st)
    requires req.route.UpdateProject?
    requires ProvidedSecret(req) == Some(AdminSecret(cfg))
    ensures var (st', resp) := Step(cfg, st, req, freshId, now);
      var id := req.route.id;
      && (ParseProjectPatch(req.body).Err? ==> resp.status == 400 && st' == st)
      && (ParseProjectPatch(req.body).Ok? && Storage.GetProject(st, id).None? ==>
            resp == ProjectNotFound && st' == st)
      && (ParseProjectPatch(req.body).Ok? && Storage.GetProject(st, id).Some? ==>
            var merged := ApplyProjectPatch(Storage.GetProject(st, id).value, ParseProjectPatch(req.body).value);
            resp == Response(200, ProjectJson(merged)) && Storage.GetProject(st', id) == Some(merged))
  {
    assert Step(cfg, st, req, freshId, now) == Handle(st, req, freshId, now);
    match ParseProjectPatch(req.body) {
      case Err(_) =>
      case Ok(patch) =>
        Storage.UpdateProjectSpec(st, req.route.id, patch);
        var (st', r) := Storage.UpdateProject(st, req.route.id, patch);
        assert Handle(st, req, freshId, now) ==
          (st', if r.None? then ProjectNotFound else Response(200, ProjectJson(r.value)));
    }
  }

  /** `DELETE /api/projects/:id` past the gate: 404 exactly when nothing was
      deleted; afterwards the project reads as 404 and a repeated delete is a 404. */
  lemma DeleteProjectRoute(cfg: Config, st: Storage.Store, req: Request, freshId: string, now: int)
    requires Storage.Valid(st)
    requires req.route.DeleteProject?
    requires ProvidedSecret(req) == Some(AdminSecret(cfg))
    ensures var (st', resp) := Step(cfg, st, req, freshId, now);
      && (resp == ProjectNotFound <==> !Storage.DeleteProject(st, req.route.id).1)
      && (resp == ProjectNotFound <==> Storage.GetProject(st, req.route.id).None?)
      && Step(cfg, st', Request(GetProject(req.route.id), map[], map[], JNull), freshId, now).1 == ProjectNotFound
      && Step(cfg, st', req, freshId, now).1 == ProjectNotFound
  {
    GoneAfterDelete(cfg, Storage.DeleteProject(st, req.route.id).0, req, freshId, now);
  }

  /** Once a project is absent, reading it or deleting it again is a 404. */
  lemma GoneAfterDelete(cfg: Config, st: Storage.Store, req: Request, freshId: string, now: int)
    requires req.route.DeleteProject?
    requires ProvidedSecret(req) == Some(AdminSecret(cfg))
    requires Storage.GetProject(st, req.route.id).None?
    ensures Step(cfg, st, Request(GetProject(req.route.id), map[], map[], JNull), freshId, now).1 == ProjectNotFound
    ensures Step(cfg, st, req, freshId, now).1 == ProjectNotFound
  {
  }

  /** `PUT /api/resume` past the gate: a missing, empty or non-string
      `resumeUrl` is a 400 with no write; otherwise the value is stored under
      `"resumeUrl"`, echoed back, and `GET /api/resume` then returns it. */
  lemma PutResumeRoute(cfg: Config, st: Storage.Store, req: Request, freshId: string, now: int)
    requires Storage.Valid(st)
    requires req.route.PutResume?
    requires ProvidedSecret(req) == Some(AdminSecret(cfg))
    ensures var (st', resp) := Step(cfg, st, req, freshId, now);
      && (!(Field(req.body, "resumeUrl").Some? && Field(req.body, "resumeUrl").value.JString?
            && Field(req.body, "resumeUrl").value.s != "") ==>
            resp == ResumeUrlRequired && st' == st)
      && (Field(req.body, "resumeUrl").Some? && Field(req.body, "resumeUrl").value.JString?
            && Field(req.body, "resumeUrl").value.s != "" ==>
            var url := Field(req.body, "resumeUrl").value.s;
            && resp == Response(200, ResumeSavedJson("Resume URL updated successfully", url))
            && Step(cfg, st', Request(GetResume, map[], map[], JNull), freshId, now).1 ==
                 Response(200, ResumeJson(Some(url))))
  {
    assert Step(cfg, st, req, freshId, now) == Handle(st, req, freshId, now);
    match Field(req.body, "resumeUrl") {
      case Some(JString(url)) =>
        if url != "" {
          ResumeStoredThenRead(cfg, st, url, freshId, now);
          assert Handle(st, req, freshId, now) ==
            (Storage.SetSetting(st, ResumeKey, url).0,
             Response(200, ResumeSavedJson("Resume URL updated successfully", url)));
        }
      case _ =>
    }
  }

  /** After the résumé link is stored, the public read returns it. */
  lemma ResumeStoredThenRead(cfg: Config, st: Storage.Store, url: string, freshId: string, now: int)
    requires Storage.Valid(st)
    requires url != ""
    ensures var st' := Storage.SetSetting(st, ResumeKey, url).0;
      Step(cfg, st', Request(GetResume, map[], map[], JNull), freshId, now).1 ==
        Response(200, ResumeJson(Some(url)))
  {
    Storage.SetSettingSpec(st, ResumeKey, url);
    var st' := Storage.SetSetting(st, ResumeKey, url).0;
    assert StoredResumeUrl(st') == Some(url);
  }

  /** The scenario of a first project: without the secret the create is a 401
      and nothing is stored. */
  lemma FirstProjectAnonymous(cfg: Config, freshId: string, now: int)
    ensures var body := NewProjectJson(NewProject("A", Some("d"), "# A", Some(["http://x/y.png"])));
      Step(cfg, Storage.EmptyStore, Request(CreateProject, map[], map[], body), freshId, now)
        == (Storage.EmptyStore, Unauthorized)
  {
  }

  /** With the secret the first create answers 201 with the server-generated
      id, and the listing then holds exactly that project. */
  lemma FirstProjectScenario(cfg: Config, freshId: string, now: int)
    ensures var body := NewProjectJson(NewProject("A", Some("d"), "# A", Some(["http://x/y.png"])));
      var admin := Request(CreateProject, map["x-admin-secret" := AdminSecret(cfg)], map[], body);
      var p := Project(freshId, "A", "d", "# A", ["http://x/y.png"], now);
      && Step(cfg, Storage.EmptyStore, admin, freshId, now).1 == Response(201, ProjectJson(p))
      && Storage.GetAllProjects(Step(cfg, Storage.EmptyStore, admin, freshId, now).0) == [p]
  {
    var n := NewProject("A", Some("d"), "# A", Some(["http://x/y.png"]));
    var body := NewProjectJson(n);
    var admin := Request(CreateProject, map["x-admin-secret" := AdminSecret(cfg)], map[], body);
    NewProjectRoundTrip(n);
    Storage.EmptyStoreValid();
    assert ProvidedSecret(admin) == Some(AdminSecret(cfg));
    CreateProjectRoute(cfg, Storage.EmptyStore, admin, freshId, now);
    var st' := Step(cfg, Storage.EmptyStore, admin, freshId, now).0;
    var p := ProjectRow(n, freshId, now);
    assert p == Project(freshId, "A", "d", "# A", ["http://x/y.png"], now);
    assert st' == Storage.CreateProject(Storage.EmptyStore, n, freshId, now).value.0;
    assert st'.projects == [p];
    SingletonListing(st');
  }

  /** A table of one project lists just that project. */
  lemma SingletonListing(st: Storage.Store)
    requires |st.projects| == 1
    ensures Storage.GetAllProjects(st) == st.projects
  {
    var all := Storage.GetAllProjects(st);
    assert |multiset(all)| == |multiset(st.projects)|;
    assert all[0] in multiset(st.projects);
  }
}

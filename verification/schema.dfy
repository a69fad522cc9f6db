/**
  The record shapes of the content store (projects, settings, users, pages),
  the column defaults applied on insert, the partial-merge rule of updates,
  and the request-body schemas `insertProjectSchema` and its `.partial()`
  written out as parsers.
 */
module Schema {
  import opened Wrappers
  import opened Json

  /** A portfolio project. `id` is a server-generated primary key and
      `createdAt` the insertion time; neither ever changes. */
  datatype Project = Project(
    id: string,
    title: string,
    description: string,
    markdown: string,
    images: seq<string>,
    createdAt: int)

  function ProjectId(p: Project): string { p.id }
  function ProjectCreatedAt(p: Project): int { p.createdAt }

  /** The fields a client may supply when creating a project: `id` and
      `createdAt` are omitted, `description` and `images` may be left out. */
  datatype NewProject = NewProject(
    title: string,
    description: Option<string>,
    markdown: string,
    images: Option<seq<string>>)

  /** A partial update: `Some` marks a supplied field. */
  datatype ProjectPatch = ProjectPatch(
    title: Option<string>,
    description: Option<string>,
    markdown: Option<string>,
    images: Option<seq<string>>)

  const NoChanges := ProjectPatch(None, None, None, None)

  /** The row an insert stores: the client's fields, the column defaults
      (`""` for `description`, the empty list for `images`) for what it left
      out, and the server's `id` and insertion time. */
  function ProjectRow(n: NewProject, id: string, now: int): (p: Project)
    ensures p.id == id && p.createdAt == now
    ensures p.title == n.title && p.markdown == n.markdown
    ensures n.description.None? ==> p.description == ""
    ensures n.description.Some? ==> p.description == n.description.value
    ensures n.images.None? ==> p.images == []
    ensures n.images.Some? ==> p.images == n.images.value
  {
    Project(id, n.title, n.description.GetOr(""), n.markdown, n.images.GetOr([]), now)
  }

  /** Merges a partial update into a project: supplied fields are replaced,
      every other field, `id` and `createdAt` included, keeps its value. */
  function ApplyProjectPatch(p: Project, patch: ProjectPatch): (q: Project)
    ensures q.id == p.id && q.createdAt == p.createdAt
    ensures patch.title.None? ==> q.title == p.title
    ensures patch.title.Some? ==> q.title == patch.title.value
    ensures patch.description.None? ==> q.description == p.description
    ensures patch.description.Some? ==> q.description == patch.description.value
    ensures patch.markdown.None? ==> q.markdown == p.markdown
    ensures patch.markdown.Some? ==> q.markdown == patch.markdown.value
    ensures patch.images.None? ==> q.images == p.images
    ensures patch.images.Some? ==> q.images == patch.images.value
  {
    p.(title := patch.title.GetOr(p.title),
       description := patch.description.GetOr(p.description),
       markdown := patch.markdown.GetOr(p.markdown),
       images := patch.images.GetOr(p.images))
  }

  /** Applying the same partial update twice is the same as applying it once,
      and an update that supplies nothing is the identity. */
  lemma ApplyProjectPatchIdempotent(p: Project, patch: ProjectPatch)
    ensures ApplyProjectPatch(ApplyProjectPatch(p, patch), patch) == ApplyProjectPatch(p, patch)
    ensures ApplyProjectPatch(p, NoChanges) == p
  {
  }

  /** A `settings` row: `key` is unique, `id` a serial number. */
  datatype Setting = Setting(id: int, key: string, value: string)

  function SettingKey(s: Setting): string { s.key }
  function SettingId(s: Setting): int { s.id }

  /** A `users` row: `username` is unique, `id` a serial number. */
  datatype User = User(id: int, username: string, password: string)

  datatype NewUser = NewUser(username: string, password: string)

  function UserId(u: User): int { u.id }
  function UserName(u: User): string { u.username }

  /** A static page. The `pages` table definition is not part of this model:
      the shape is the one the client edits, plus the `updatedAt` stamp that
      updates refresh. No uniqueness of `slug` is assumed. */
  datatype Page = Page(
    id: string,
    title: string,
    slug: string,
    content: string,
    published: bool,
    createdAt: int,
    updatedAt: int)

  datatype NewPage = NewPage(title: string, slug: string, content: string, published: bool)

  datatype PagePatch = PagePatch(
    title: Option<string>,
    slug: Option<string>,
    content: Option<string>,
    published: Option<bool>)

  function PageId(p: Page): string { p.id }
  function PageSlug(p: Page): string { p.slug }
  function PageCreatedAt(p: Page): int { p.createdAt }

  /** The row a page insert stores; both stamps are the insertion time. */
  function PageRow(n: NewPage, id: string, now: int): (p: Page)
    ensures p.id == id && p.createdAt == now && p.updatedAt == now
    ensures p.title == n.title && p.slug == n.slug && p.content == n.content
    ensures p.published == n.published
  {
    Page(id, n.title, n.slug, n.content, n.published, now, now)
  }

  /** Merges a partial page update and stamps `updatedAt` with the current time. */
  function ApplyPagePatch(p: Page, patch: PagePatch, now: int): (q: Page)
    ensures q.id == p.id && q.createdAt == p.createdAt && q.updatedAt == now
    ensures q.title == patch.title.GetOr(p.title)
    ensures q.slug == patch.slug.GetOr(p.slug)
    ensures q.content == patch.content.GetOr(p.content)
    ensures q.published == patch.published.GetOr(p.published)
  {
    p.(title := patch.title.GetOr(p.title),
       slug := patch.slug.GetOr(p.slug),
       content := patch.content.GetOr(p.content),
       published := patch.published.GetOr(p.published),
       updatedAt := now)
  }

  // ---------------------------------------------------------------------------
  // insertProjectSchema and insertProjectSchema.partial()
  // ---------------------------------------------------------------------------

  /** What the schema objects to. */
  datatype Issue = ExpectedObject | InvalidField(name: string)

  /** One member of the body as a schema field sees it. */
  datatype FieldValue<T> = Absent | Present(value: T) | Invalid {
    function ToOption(): Option<T> {
      if Present? then Some(value) else None
    }
  }

  /** A text field: absent, a string, or anything else (invalid; `null` included). */
  function ReadString(body: Json, name: string): FieldValue<string> {
    match Field(body, name)
    case None => Absent
    case Some(JString(s)) => Present(s)
    case Some(_) => Invalid
  }

  /** A text-array field: absent, an array of strings, or invalid. */
  function ReadStrings(body: Json, name: string): FieldValue<seq<string>> {
    match Field(body, name)
    case None => Absent
    case Some(v) => match AsStrings(v) {
      case Some(ss) => Present(ss)
      case None => Invalid
    }
  }

  /** Members other than `name` do not affect how `name` is read. */
  lemma ReadIgnoresOtherMembers(fields: map<string, Json>, k: string, v: Json, name: string)
    requires k != name
    ensures ReadString(JObject(fields[k := v]), name) == ReadString(JObject(fields), name)
    ensures ReadStrings(JObject(fields[k := v]), name) == ReadStrings(JObject(fields), name)
  {
  }

  /** The names of the four writable project columns. */
  predicate IsProjectField(name: string) {
    name == "title" || name == "description" || name == "markdown" || name == "images"
  }

  /** `insertProjectSchema.parse(body)`: an object with string `title` and
      `markdown`, optional string `description`, optional string-array
      `images`; other members (an `id` or `createdAt` among them) are dropped.
      On failure, every offending field is reported. */
  function ParseNewProject(body: Json): (r: Result<NewProject, seq<Issue>>)
    ensures !body.JObject? ==> r == Err([ExpectedObject])
    ensures r.Err? ==> |r.error| > 0
    ensures r.Ok? ==> Field(body, "title") == Some(JString(r.value.title))
    ensures r.Ok? ==> Field(body, "markdown") == Some(JString(r.value.markdown))
    ensures r.Ok? ==> Field(body, "description") == (match r.value.description
      case None => None case Some(d) => Some(JString(d)))
    ensures r.Ok? ==> ReadStrings(body, "images").ToOption() == r.value.images
  {
    if !body.JObject? then Err([ExpectedObject])
    else
      var title := ReadString(body, "title");
      var description := ReadString(body, "description");
      var markdown := ReadString(body, "markdown");
      var images := ReadStrings(body, "images");
      var issues :=
        (if title.Present? then [] else [InvalidField("title")])
        + (if description.Invalid? then [InvalidField("description")] else [])
        + (if markdown.Present? then [] else [InvalidField("markdown")])
        + (if images.Invalid? then [InvalidField("images")] else []);
      if issues != [] then Err(issues)
      else Ok(NewProject(title.value, description.ToOption(), markdown.value, images.ToOption()))
  }

  /** `insertProjectSchema.partial().parse(body)`: every field optional, each
      supplied one checked as in `ParseNewProject`. */
  function ParseProjectPatch(body: Json): (r: Result<ProjectPatch, seq<Issue>>)
    ensures !body.JObject? ==> r == Err([ExpectedObject])
    ensures r.Err? ==> |r.error| > 0
    ensures r.Ok? ==> ReadString(body, "title").ToOption() == r.value.title
    ensures r.Ok? ==> ReadString(body, "description").ToOption() == r.value.description
    ensures r.Ok? ==> ReadString(body, "markdown").ToOption() == r.value.markdown
    ensures r.Ok? ==> ReadStrings(body, "images").ToOption() == r.value.images
  {
    if !body.JObject? then Err([ExpectedObject])
    else
      var title := ReadString(body, "title");
      var description := ReadString(body, "description");
      var markdown := ReadString(body, "markdown");
      var images := ReadStrings(body, "images");
      var issues :=
        (if title.Invalid? then [InvalidField("title")] else [])
        + (if description.Invalid? then [InvalidField("description")] else [])
        + (if markdown.Invalid? then [InvalidField("markdown")] else [])
        + (if images.Invalid? then [InvalidField("images")] else []);
      if issues != [] then Err(issues)
      else Ok(ProjectPatch(title.ToOption(), description.ToOption(), markdown.ToOption(), images.ToOption()))
  }

  /** The JSON object a client sends to create `n`. */
  function NewProjectJson(n: NewProject): Json {
    var m := map["title" := JString(n.title), "markdown" := JString(n.markdown)];
    var m := if n.description.Some? then m["description" := JString(n.description.value)] else m;
    var m := if n.images.Some? then m["images" := StringsJson(n.images.value)] else m;
    JObject(m)
  }

  /** The JSON object a client sends to apply `patch`. */
  function ProjectPatchJson(patch: ProjectPatch): Json {
    var m: map<string, Json> := map[];
    var m := if patch.title.Some? then m["title" := JString(patch.title.value)] else m;
    var m := if patch.description.Some? then m["description" := JString(patch.description.value)] else m;
    var m := if patch.markdown.Some? then m["markdown" := JString(patch.markdown.value)] else m;
    var m := if patch.images.Some? then m["images" := StringsJson(patch.images.value)] else m;
    JObject(m)
  }

  /** Parsing what a client sends for a new project gives that project back. */
  lemma NewProjectRoundTrip(n: NewProject)
    ensures ParseNewProject(NewProjectJson(n)) == Ok(n)
  {
    var body := NewProjectJson(n);
    assert ReadString(body, "title") == Present(n.title);
    assert ReadString(body, "markdown") == Present(n.markdown);
    assert ReadString(body, "description").ToOption() == n.description;
    assert ReadStrings(body, "images").ToOption() == n.images;
  }

  /** Parsing what a client sends for a partial update gives that update back. */
  lemma ProjectPatchRoundTrip(patch: ProjectPatch)
    ensures ParseProjectPatch(ProjectPatchJson(patch)) == Ok(patch)
  {
    var body := ProjectPatchJson(patch);
    assert ReadString(body, "title").ToOption() == patch.title;
    assert ReadString(body, "description").ToOption() == patch.description;
    assert ReadString(body, "markdown").ToOption() == patch.markdown;
    assert ReadStrings(body, "images").ToOption() == patch.images;
  }

  /** A client cannot smuggle in `id`, `createdAt` or any other extra member:
      both schemas parse the body exactly as if it were absent. */
  lemma ExtraMembersIgnored(fields: map<string, Json>, k: string, v: Json)
    requires !IsProjectField(k)
    ensures ParseNewProject(JObject(fields[k := v])) == ParseNewProject(JObject(fields))
    ensures ParseProjectPatch(JObject(fields[k := v])) == ParseProjectPatch(JObject(fields))
  {
    ReadIgnoresOtherMembers(fields, k, v, "title");
    ReadIgnoresOtherMembers(fields, k, v, "description");
    ReadIgnoresOtherMembers(fields, k, v, "markdown");
    ReadIgnoresOtherMembers(fields, k, v, "images");
  }
}

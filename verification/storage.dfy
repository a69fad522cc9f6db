/**
  `DatabaseStorage`: the typed CRUD layer over the four tables. Each table is
  the sequence of its rows; identifiers and the current time that the
  database would generate are supplied by the caller. Every operation is a
  pure function from the store before to the store after and its result.
 */
module Storage {
  import opened Wrappers
  import opened Schema
  import Tables
  import Ordering

  /** The one failure a statement can meet here: a `PRIMARY KEY` or `UNIQUE`
      constraint would be violated. */
  datatype StoreError = DuplicateKey

  datatype Store = Store(
    projects: seq<Project>,
    settings: seq<Setting>,
    users: seq<User>,
    pages: seq<Page>,
    nextSettingId: int,
    nextUserId: int)

  /** A fresh database: empty tables, serial counters at 1. */
  const EmptyStore := Store([], [], [], [], 1, 1)

  /** The constraints the schema declares, plus serial counters that stay
      above every number they handed out. */
  predicate Valid(st: Store) {
    && Tables.UniqueKeys(st.projects, ProjectId)
    && Tables.UniqueKeys(st.settings, SettingKey)
    && Tables.UniqueKeys(st.settings, SettingId)
    && (forall i :: 0 <= i < |st.settings| ==> st.settings[i].id < st.nextSettingId)
    && Tables.UniqueKeys(st.users, UserId)
    && Tables.UniqueKeys(st.users, UserName)
    && (forall i :: 0 <= i < |st.users| ==> st.users[i].id < st.nextUserId)
    && Tables.UniqueKeys(st.pages, PageId)
  }

  lemma EmptyStoreValid()
    ensures Valid(EmptyStore)
  {
  }

  /** Every serial id is below the counter, so the counter is not yet in use. */
  lemma CounterIsFresh<R>(rows: seq<R>, id: R -> int, next: int)
    requires forall i :: 0 <= i < |rows| ==> id(rows[i]) < next
    ensures !Tables.HasKey(rows, id, next)
  {
  }

  // ---------------------------------------------------------------------------
  // Users: a keyed insert and two lookups
  // ---------------------------------------------------------------------------

  function GetUser(st: Store, id: int): (r: Option<User>)
    ensures r.Some? ==> r.value in st.users && r.value.id == id
    ensures r.None? <==> !Tables.HasKey(st.users, UserId, id)
  {
    Tables.Lookup(st.users, UserId, id)
  }

  function GetUserByUsername(st: Store, username: string): (r: Option<User>)
    ensures r.Some? ==> r.value in st.users && r.value.username == username
    ensures r.None? <==> !Tables.HasKey(st.users, UserName, username)
  {
    Tables.Lookup(st.users, UserName, username)
  }

  /** `INSERT INTO users`: refused when the username is taken, otherwise the
      row gets the next serial id. */
  function CreateUser(st: Store, n: NewUser): (r: Result<(Store, User), StoreError>)
    requires Valid(st)
    ensures r.Err? <==> GetUserByUsername(st, n.username).Some?
    ensures r.Err? ==> r.error == DuplicateKey
    ensures r.Ok? ==> Valid(r.value.0)
    ensures r.Ok? ==> r.value.1.username == n.username && r.value.1.password == n.password
    ensures r.Ok? ==> GetUserByUsername(r.value.0, n.username) == Some(r.value.1)
    ensures r.Ok? ==> GetUser(r.value.0, r.value.1.id) == Some(r.value.1)
  {
    if Tables.HasKey(st.users, UserName, n.username) then Err(DuplicateKey)
    else
      var u := User(st.nextUserId, n.username, n.password);
      var st' := st.(users := st.users + [u], nextUserId := st.nextUserId + 1);
      CounterIsFresh(st.users, UserId, st.nextUserId);
      Tables.AppendKeepsUnique(st.users, UserId, u);
      Tables.AppendKeepsUnique(st.users, UserName, u);
      Tables.LookupAfterAppend(st.users, UserName, u, n.username);
      Tables.LookupAfterAppend(st.users, UserId, u, u.id);
      Ok((st', u))
  }

  // ---------------------------------------------------------------------------
  // Projects
  // ---------------------------------------------------------------------------

  /** `SELECT * FROM projects ORDER BY created_at`: every stored project, each
      as often as it is stored, oldest first. */
  function GetAllProjects(st: Store): (r: seq<Project>)
    ensures Ordering.SortedBy(r, ProjectCreatedAt)
    ensures multiset(r) == multiset(st.projects)
  {
    Ordering.SortByKey(st.projects, ProjectCreatedAt)
  }

  /** The project with this id, or absent when there is none. */
  function GetProject(st: Store, id: string): (r: Option<Project>)
    ensures r.Some? ==> r.value in st.projects && r.value.id == id
    ensures r.None? <==> forall i :: 0 <= i < |st.projects| ==> st.projects[i].id != id
  {
    Tables.Lookup(st.projects, ProjectId, id)
  }

  /** `INSERT INTO projects ... RETURNING *`, with `id` standing for the
      database's random UUID and `now` for the insertion time. */
  function CreateProject(st: Store, n: NewProject, id: string, now: int): (r: Result<(Store, Project), StoreError>)
    ensures r.Err? <==> GetProject(st, id).Some?
    ensures r.Ok? ==> r.value.1 == ProjectRow(n, id, now)
    ensures r.Ok? ==> r.value.0 == st.(projects := st.projects + [r.value.1])
  {
    if Tables.HasKey(st.projects, ProjectId, id) then Err(DuplicateKey)
    else
      var p := ProjectRow(n, id, now);
      Ok((st.(projects := st.projects + [p]), p))
  }

  /** `UPDATE projects SET <supplied fields> WHERE id = $1 RETURNING *`. */
  function UpdateProject(st: Store, id: string, patch: ProjectPatch): (r: (Store, Option<Project>))
  {
    var f := (p: Project) => ApplyProjectPatch(p, patch);
    var rows := Tables.UpdateWhere(st.projects, ProjectId, id, f);
    (st.(projects := rows), Tables.Lookup(rows, ProjectId, id))
  }

  /** `DELETE FROM projects WHERE id = $1`, reporting whether a row went. */
  function DeleteProject(st: Store, id: string): (r: (Store, bool))
    ensures r.1 <==> GetProject(st, id).Some?
    ensures GetProject(r.0, id).None?
    ensures r.0.settings == st.settings && r.0.pages == st.pages && r.0.users == st.users
  {
    var (rows, removed) := Tables.DeleteWhere(st.projects, ProjectId, id);
    (st.(projects := rows), removed > 0)
  }

  // ---------------------------------------------------------------------------
  // Settings
  // ---------------------------------------------------------------------------

  function GetSetting(st: Store, key: string): (r: Option<Setting>)
    ensures r.Some? ==> r.value in st.settings && r.value.key == key
    ensures r.None? <==> !Tables.HasKey(st.settings, SettingKey, key)
  {
    Tables.Lookup(st.settings, SettingKey, key)
  }

  /** Read, then update in place when the key exists or insert a new row
      (with the next serial id) when it does not. */
  function SetSetting(st: Store, key: string, value: string): (r: (Store, Setting))
  {
    match GetSetting(st, key)
    case Some(existing) =>
      var f := (s: Setting) => s.(value := value);
      (st.(settings := Tables.UpdateWhere(st.settings, SettingKey, key, f)), existing.(value := value))
    case None =>
      var s := Setting(st.nextSettingId, key, value);
      (st.(settings := st.settings + [s], nextSettingId := st.nextSettingId + 1), s)
  }

  /** `SELECT * FROM settings` with no ordering: every row of the table, each
      exactly once, in table order. */
  function GetAllSettings(st: Store): (r: seq<Setting>)
    ensures r == st.settings
    ensures forall k :: GetSetting(st, k).Some? ==> GetSetting(st, k).value in r
  {
    st.settings
  }

  /** Under the key constraint, each listed setting is exactly the row a
      lookup by its key returns: the listing and the keyed reads agree. */
  lemma SettingsListingKeyed(st: Store)
    requires Valid(st)
    ensures forall i :: 0 <= i < |GetAllSettings(st)| ==>
      GetSetting(st, GetAllSettings(st)[i].key) == Some(GetAllSettings(st)[i])
  {
    forall i | 0 <= i < |st.settings|
      ensures GetSetting(st, st.settings[i].key) == Some(st.settings[i])
    {
      Tables.LookupUnique(st.settings, SettingKey, i);
    }
  }

  // ---------------------------------------------------------------------------
  // Pages
  // ---------------------------------------------------------------------------

  /** `SELECT * FROM pages ORDER BY created_at`. */
  function GetAllPages(st: Store): (r: seq<Page>)
    ensures Ordering.SortedBy(r, PageCreatedAt)
    ensures multiset(r) == multiset(st.pages)
  {
    Ordering.SortByKey(st.pages, PageCreatedAt)
  }

  function GetPage(st: Store, id: string): (r: Option<Page>)
    ensures r.Some? ==> r.value in st.pages && r.value.id == id
    ensures r.None? <==> forall i :: 0 <= i < |st.pages| ==> st.pages[i].id != id
  {
    Tables.Lookup(st.pages, PageId, id)
  }

  /** The first page in table order whose slug matches: slugs are not
      assumed unique, so other pages may share it. */
  function GetPageBySlug(st: Store, slug: string): (r: Option<Page>)
    ensures r.None? <==> forall i :: 0 <= i < |st.pages| ==> st.pages[i].slug != slug
    ensures r.Some? ==> r.value.slug == slug
    ensures r.Some? ==> exists i :: (0 <= i < |st.pages| && st.pages[i] == r.value
      && forall j :: 0 <= j < i ==> st.pages[j].slug != slug)
  {
    match Tables.FirstIndex(st.pages, PageSlug, slug)
    case None => None
    case Some(i) => Some(st.pages[i])
  }

  function CreatePage(st: Store, n: NewPage, id: string, now: int): (r: Result<(Store, Page), StoreError>)
    ensures r.Err? <==> GetPage(st, id).Some?
    ensures r.Ok? ==> r.value.1 == PageRow(n, id, now)
    ensures r.Ok? ==> r.value.0 == st.(pages := st.pages + [r.value.1])
  {
    if Tables.HasKey(st.pages, PageId, id) then Err(DuplicateKey)
    else
      var p := PageRow(n, id, now);
      Ok((st.(pages := st.pages + [p]), p))
  }

  /** `UPDATE pages SET <supplied fields>, updated_at = now WHERE id = $1 RETURNING *`. */
  function UpdatePage(st: Store, id: string, patch: PagePatch, now: int): (r: (Store, Option<Page>))
  {
    var f := (p: Page) => ApplyPagePatch(p, patch, now);
    var rows := Tables.UpdateWhere(st.pages, PageId, id, f);
    (st.(pages := rows), Tables.Lookup(rows, PageId, id))
  }

  function DeletePage(st: Store, id: string): (r: (Store, bool))
    ensures r.1 <==> GetPage(st, id).Some?
    ensures GetPage(r.0, id).None?
    ensures r.0.settings == st.settings && r.0.projects == st.projects && r.0.users == st.users
  {
    var (rows, removed) := Tables.DeleteWhere(st.pages, PageId, id);
    (st.(pages := rows), removed > 0)
  }

  // ---------------------------------------------------------------------------
  // Properties relating several calls
  // ---------------------------------------------------------------------------

  /** A created project is stored exactly once, is found by its id with every
      supplied field (and the defaults for omitted ones), and the listing
      contains it exactly once. */
  lemma CreateThenGet(st: Store, n: NewProject, id: string, now: int)
    requires Valid(st)
    requires GetProject(st, id).None?
    ensures CreateProject(st, n, id, now).Ok?
    ensures var (st', p) := CreateProject(st, n, id, now).value;
      && Valid(st')
      && GetProject(st', id) == Some(p)
      && p == ProjectRow(n, id, now)
      && multiset(GetAllProjects(st'))[p] == 1
  {
    var (st', p) := CreateProject(st, n, id, now).value;
    Tables.AppendKeepsUnique(st.projects, ProjectId, p);
    Tables.LookupAfterAppend(st.projects, ProjectId, p, id);
    assert multiset(st.projects)[p] == 0;
  }

  /** An update of an unknown id reports absent and changes nothing; of a known
      id it merges the supplied fields into that row (keeping `id` and
      `createdAt`), returns the merged row, and no other project, setting, page
      or user changes. */
  lemma UpdateProjectSpec(st: Store, id: string, patch: ProjectPatch)
    requires Valid(st)
    ensures var (st', r) := UpdateProject(st, id, patch);
      && Valid(st')
      && (GetProject(st, id).None? ==> r.None? && st' == st)
      && (GetProject(st, id).Some? ==> r == Some(ApplyProjectPatch(GetProject(st, id).value, patch)))
      && GetProject(st', id) == r
      && (forall other :: other != id ==> GetProject(st', other) == GetProject(st, other))
      && st'.settings == st.settings && st'.pages == st.pages && st'.users == st.users
  {
    var f := (p: Project) => ApplyProjectPatch(p, patch);
    var rows := Tables.UpdateWhere(st.projects, ProjectId, id, f);
    Tables.UpdateKeepsKeys(st.projects, ProjectId, id, f);
    Tables.LookupAfterUpdate(st.projects, ProjectId, id, f);
    forall other | other != id
      ensures Tables.Lookup(rows, ProjectId, other) == Tables.Lookup(st.projects, ProjectId, other)
    {
      Tables.LookupOtherAfterUpdate(st.projects, ProjectId, id, other, f);
    }
    if GetProject(st, id).None? {
      assert rows == st.projects;
    }
  }

  /** Deleting keeps every other project and the store's constraints; a second
      delete of the same id reports that nothing was removed. */
  lemma DeleteProjectSpec(st: Store, id: string)
    requires Valid(st)
    ensures var (st', deleted) := DeleteProject(st, id);
      && Valid(st')
      && (forall other :: other != id ==> GetProject(st', other) == GetProject(st, other))
      && DeleteProject(st', id).1 == false
  {
    var rows := Tables.DeleteWhere(st.projects, ProjectId, id).0;
    forall other | other != id
      ensures Tables.Lookup(rows, ProjectId, other) == Tables.Lookup(st.projects, ProjectId, other)
    {
      Tables.DeleteKeepsOtherKeys(st.projects, ProjectId, id, other);
    }
    DeleteKeepsUnique(st.projects, ProjectId, id);
  }

  /** Removing rows keeps a uniqueness constraint. */
  lemma {:induction false} DeleteKeepsUnique<R, K>(rows: seq<R>, key: R -> K, k: K)
    requires Tables.UniqueKeys(rows, key)
    ensures Tables.UniqueKeys(Tables.DeleteWhere(rows, key, k).0, key)
    decreases |rows|
  {
    if rows != [] {
      assert Tables.UniqueKeys(rows[1..], key);
      DeleteKeepsUnique(rows[1..], key, k);
      var rest := Tables.DeleteWhere(rows[1..], key, k).0;
      if key(rows[0]) != k {
        var kept := [rows[0]] + rest;
        forall i, j | 0 <= i < j < |kept| ensures key(kept[i]) != key(kept[j]) {
          if i == 0 {
            assert kept[j] in rows[1..];
          }
        }
      }
    }
  }

  /** `setSetting` is an upsert: afterwards exactly one row has the key and it
      holds the new value; an existing row keeps its id and the row count; a
      new key adds one row; every other key reads as before; the store's
      constraints hold. */
  lemma SetSettingSpec(st: Store, key: string, value: string)
    requires Valid(st)
    ensures var (st', s) := SetSetting(st, key, value);
      && Valid(st')
      && s.key == key && s.value == value
      && GetSetting(st', key) == Some(s)
      && Tables.Count(st'.settings, SettingKey, key) == 1
      && (GetSetting(st, key).Some? ==> s.id == GetSetting(st, key).value.id && |st'.settings| == |st.settings|)
      && (GetSetting(st, key).None? ==> |st'.settings| == |st.settings| + 1)
      && (forall k :: k != key ==> GetSetting(st', k) == GetSetting(st, k))
      && st'.projects == st.projects && st'.pages == st.pages && st'.users == st.users
  {
    var (st', s) := SetSetting(st, key, value);
    match GetSetting(st, key)
    case Some(existing) =>
      var f := (s: Setting) => s.(value := value);
      var rows := Tables.UpdateWhere(st.settings, SettingKey, key, f);
      Tables.UpdateKeepsKeys(st.settings, SettingKey, key, f);
      Tables.LookupAfterUpdate(st.settings, SettingKey, key, f);
      forall k | k != key ensures Tables.Lookup(rows, SettingKey, k) == Tables.Lookup(st.settings, SettingKey, k) {
        Tables.LookupOtherAfterUpdate(st.settings, SettingKey, key, k, f);
      }
      assert forall i :: 0 <= i < |rows| ==> rows[i].id == st.settings[i].id;
      assert Tables.UniqueKeys(rows, SettingId) by {
        forall i, j | 0 <= i < j < |rows| ensures rows[i].id != rows[j].id {
          assert SettingId(st.settings[i]) != SettingId(st.settings[j]);
        }
      }
      Tables.UniqueCountAtMostOne(rows, SettingKey, key);
    case None =>
      CounterIsFresh(st.settings, SettingId, st.nextSettingId);
      Tables.AppendKeepsUnique(st.settings, SettingKey, s);
      Tables.AppendKeepsUnique(st.settings, SettingId, s);
      forall k ensures Tables.Lookup(st'.settings, SettingKey, k) ==
        (if k == key then Some(s) else Tables.Lookup(st.settings, SettingKey, k))
      {
        Tables.LookupAfterAppend(st.settings, SettingKey, s, k);
      }
      Tables.UniqueCountAtMostOne(st'.settings, SettingKey, key);
  }

  /** Two writes to one key: the second value wins and the second write adds
      no row. */
  lemma SetSettingTwice(st: Store, key: string, v1: string, v2: string)
    requires Valid(st)
    ensures var st1 := SetSetting(st, key, v1).0;
      var st2 := SetSetting(st1, key, v2).0;
      && GetSetting(st2, key).Some?
      && GetSetting(st2, key).value.value == v2
      && |st2.settings| == |st1.settings|
      && Tables.Count(st2.settings, SettingKey, key) == 1
  {
    SetSettingSpec(st, key, v1);
    var st1 := SetSetting(st, key, v1).0;
    SetSettingSpec(st1, key, v2);
  }

  /** A page update of an unknown id reports absent and changes nothing; of a
      known id it merges the supplied fields, stamps `updatedAt` with `now`,
      and leaves every other page alone. */
  lemma UpdatePageSpec(st: Store, id: string, patch: PagePatch, now: int)
    requires Valid(st)
    ensures var (st', r) := UpdatePage(st, id, patch, now);
      && Valid(st')
      && (GetPage(st, id).None? ==> r.None? && st' == st)
      && (GetPage(st, id).Some? ==> r == Some(ApplyPagePatch(GetPage(st, id).value, patch, now)))
      && (r.Some? ==> r.value.updatedAt == now && r.value.createdAt == GetPage(st, id).value.createdAt)
      && GetPage(st', id) == r
      && (forall other :: other != id ==> GetPage(st', other) == GetPage(st, other))
  {
    var f := (p: Page) => ApplyPagePatch(p, patch, now);
    var rows := Tables.UpdateWhere(st.pages, PageId, id, f);
    Tables.UpdateKeepsKeys(st.pages, PageId, id, f);
    Tables.LookupAfterUpdate(st.pages, PageId, id, f);
    forall other | other != id
      ensures Tables.Lookup(rows, PageId, other) == Tables.Lookup(st.pages, PageId, other)
    {
      Tables.LookupOtherAfterUpdate(st.pages, PageId, id, other, f);
    }
    if GetPage(st, id).None? {
      assert rows == st.pages;
    }
  }

  /** Page deletes behave like project deletes: others kept, a repeat reports false. */
  lemma DeletePageSpec(st: Store, id: string)
    requires Valid(st)
    ensures var (st', deleted) := DeletePage(st, id);
      && Valid(st')
      && (forall other :: other != id ==> GetPage(st', other) == GetPage(st, other))
      && DeletePage(st', id).1 == false
  {
    var rows := Tables.DeleteWhere(st.pages, PageId, id).0;
    forall other | other != id
      ensures Tables.Lookup(rows, PageId, other) == Tables.Lookup(st.pages, PageId, other)
    {
      Tables.DeleteKeepsOtherKeys(st.pages, PageId, id, other);
    }
    DeleteKeepsUnique(st.pages, PageId, id);
  }

  /** A created page keeps the store's constraints and is found by its id. */
  lemma CreatePageSpec(st: Store, n: NewPage, id: string, now: int)
    requires Valid(st)
    requires GetPage(st, id).None?
    ensures CreatePage(st, n, id, now).Ok?
    ensures var (st', p) := CreatePage(st, n, id, now).value;
      Valid(st') && GetPage(st', id) == Some(p) && p.createdAt == now && p.updatedAt == now
  {
    var (st', p) := CreatePage(st, n, id, now).value;
    Tables.AppendKeepsUnique(st.pages, PageId, p);
    Tables.LookupAfterAppend(st.pages, PageId, p, id);
  }
}

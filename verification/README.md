# Personal portfolio: storage, admin API and editor logic

This project is a Dafny model of the logic behind a small portfolio site. The site has an Express server backed by a
Postgres database through an ORM, and a React client. The model covers the following parts.

- **Storage.** The `DatabaseStorage` class is modelled over four tables: projects, settings, users and pages. Each
  table is a sequence of rows in insertion order, with the table's key constraints as the invariant `Storage.Valid`.
  Operations are pure functions from a store to a new store and a result. The database's generated UUID and its clock
  are parameters (`id`, `now`).
- **Schema.** The project row is built from an insert (defaults for `description` and `images`). A partial update is
  merged into a row, and a page update stamps `updatedAt`. The insert schema and its `.partial()` variant are written
  out as parsers over a small JSON datatype, together with their round trips.
- **Routes.** The shared-secret gate `checkAdminSecret` and the seven project and résumé handlers are modelled as one
  transition: `Routes.Step(config, store, request, freshId, now) = (store', response)`. The request arrives already
  matched to its route.
- **Client helpers:**
  - `extractFirstParagraph` (module `Utils`);
  - the project card's thumbnail and description (module `ProjectCard`);
  - the navigation bar's highlight rule (module `Navbar`);
  - the page editor (module `PageManager`): slug generation and the create/edit state machine with the request each
    submit sends;
  - the admin panel (module `AdminPanel`): form validation, submit, edit/cancel, the image-input list and the preview.
- **JavaScript semantics.** Module `JsString` gives `trim` with the ECMAScript white-space set, `split` (always at
  least one piece), `substring` with clamped bounds, and `startsWith`. The panel's form array is a sparse JavaScript
  array: a slot is a `Hole`, an explicit `Undef` or a `Val`. An assignment past the end leaves holes, a spread copy
  `[...xs]` turns each hole into `undefined`, and `filter` skips holes but visits `undefined`.

Storage, routes and the client are tied together by lemmas:

- what the panel sends is what the server's parser accepts (`AdminPanel.SubmittedBodyAccepted`);
- a saved résumé link is then served back (`AdminPanel.ResumeSubmitStored`);
- opening a project and saving it untouched leaves it unchanged (`AdminPanel.EditSaveRoundTrip`).

`title` is a plain non-null text column, so `""` is accepted as a project title (`Schema.ParseNewProject`).

## Model

| member | source | states |
|---|---|---|
| Storage.EmptyStoreValid | shared/schema.ts:14-18 | The empty database satisfies the key constraints: unique ids everywhere, unique setting keys and user names, and serial counters above every id handed out. |
| Storage.GetUser | server/storage.ts:47-50 | Returns a stored user with the id asked for, and nothing exactly when no user has it. |
| Storage.GetUserByUsername | server/storage.ts:52-55 | Returns a stored user with that name, and nothing exactly when no user has it. |
| Storage.CreateUser | server/storage.ts:57-63 | Fails exactly when the user name is taken (the unique constraint). Otherwise it keeps the constraints, stores the given name and password, and makes the new user findable by name and by id. |
| Storage.GetAllProjects | server/storage.ts:66-68 | Lists every stored project as often as it is stored, ordered by `createdAt`. |
| Storage.GetProject | server/storage.ts:70-73 | Returns a stored project with that id, and nothing exactly when no project has it. |
| Storage.CreateProject | server/storage.ts:75-81 | Fails exactly when the id is already taken. Otherwise it appends the row built from the insert and returns that row. |
| Storage.CreateThenGet | server/storage.ts:75-81 | After a create with a fresh id the store still satisfies its constraints. The new row can be read back by its id, carries every supplied field (defaults for omitted ones) and appears exactly once in the listing. |
| Storage.UpdateProjectSpec | server/storage.ts:83-90 | For an unknown id: no row and the store unchanged. For a known id: the merged row is returned and stored. Every other project, and every setting, page and user, stays the same. |
| Storage.DeleteProject | server/storage.ts:92-95 | Reports a deletion exactly when the id existed. Afterwards the id is absent, and settings, pages and users are untouched. |
| Storage.DeleteProjectSpec | server/storage.ts:92-95 | A delete keeps the constraints and every other project. Deleting the same id again reports that nothing was deleted. |
| Storage.GetSetting | server/storage.ts:98-101 | Returns the stored setting with that key, and nothing exactly when the key is absent. |
| Storage.SetSettingSpec | server/storage.ts:103-120 | Upsert. Afterwards exactly one row has the key and it holds the new value. An existing row keeps its id and the row count; a new key adds one row. Other keys and other tables are unchanged. |
| Storage.SetSettingTwice | server/storage.ts:103-120 | Setting a key twice leaves one row with the second value, and the second call adds no row. |
| Storage.GetAllSettings | server/storage.ts:122-124 | `SELECT * FROM settings` without ordering: every row of the table, each once, in table order, so every setting a lookup by key finds is listed. |
| Storage.SettingsListingKeyed | server/storage.ts:98-101 | Under the key constraints, each listed setting is exactly the one a lookup by its key returns. |
| Storage.GetAllPages | server/storage.ts:127-129 | Lists every stored page as often as it is stored, ordered by `createdAt`. |
| Storage.GetPage | server/storage.ts:131-134 | Returns a stored page with that id, and nothing exactly when no page has it. |
| Storage.GetPageBySlug | server/storage.ts:136-139 | Returns the first stored page with that slug, and nothing exactly when no page has it. |
| Storage.CreatePage | server/storage.ts:141-144 | Fails exactly when the id is taken. Otherwise it appends the page row built from the insert. |
| Storage.CreatePageSpec | server/storage.ts:141-144 | A create with a fresh id keeps the constraints, and the page can be read back with `createdAt` and `updatedAt` both set to the insertion time. |
| Storage.UpdatePageSpec | server/storage.ts:146-153 | For an unknown id: no row and the store unchanged. For a known id: the merged page is returned with `updatedAt` set to now and `createdAt` kept. Other pages are unchanged. |
| Storage.DeletePage | server/storage.ts:155-158 | Reports a deletion exactly when the id existed. Afterwards the id is absent, and the other tables are untouched. |
| Storage.DeletePageSpec | server/storage.ts:155-158 | A page delete keeps the constraints and every other page, and a repeated delete reports nothing deleted. |
| Schema.ProjectRow | shared/schema.ts:5-12 | The inserted row has the generated id and the insertion time. Description defaults to `""` and images to `[]`. Every supplied field is kept. |
| Schema.ApplyProjectPatch | server/storage.ts:83-90 | `set(projectData)`: each supplied field replaces the stored one. Omitted fields, `id` and `createdAt` are kept. |
| Schema.ApplyProjectPatchIdempotent | server/storage.ts:83-90 | Applying the same update twice gives the same row as applying it once, and an update that supplies nothing changes nothing. |
| Schema.PageRow | server/storage.ts:141-144 | A new page carries the supplied fields, the generated id, and the insertion time as both `createdAt` and `updatedAt`. |
| Schema.ApplyPagePatch | server/storage.ts:146-153 | Each supplied field replaces the stored one, `updatedAt` becomes now, and `id` and `createdAt` are kept. |
| Schema.ParseNewProject | shared/schema.ts:20-23 | Rejects a non-object with one issue, and every rejection carries at least one issue. On success `title` and `markdown` are the body's strings, and `description` and `images` are the body's values when present. |
| Schema.ParseProjectPatch | server/routes.ts:66 | The `.partial()` schema. Rejects a non-object, and every rejection carries an issue. On success each field is exactly the body's member when present and absent otherwise. |
| Schema.NewProjectRoundTrip | shared/schema.ts:20-23 | Parsing the JSON encoding of any insert gives that insert back. |
| Schema.ProjectPatchRoundTrip | server/routes.ts:66 | Parsing the JSON encoding of any partial update gives that update back. |
| Schema.ExtraMembersIgnored | shared/schema.ts:20-23 | A body member that is not a project field (for example a client-sent `id` or `createdAt`) changes neither parse. |
| Routes.AdminSecret | server/routes.ts:10 | The secret is never empty: it is the environment value when that is set and non-empty, and `"admin123"` otherwise. |
| Routes.CheckAdminSecret | server/routes.ts:9-17 | The gate rejects with 401 "Unauthorized" and lets the request through exactly when the effective secret equals the configured one. The effective secret is the header when it is present and non-empty, otherwise the `secret` query parameter. |
| Routes.HeaderTakesPrecedence | server/routes.ts:11-13 | A non-empty header decides alone: a right query secret does not rescue a wrong header. |
| Routes.StoredResumeUrl | server/routes.ts:100-109 | Returns the stored `resumeUrl` when it exists and is non-empty, and null exactly when it is missing or empty. |
| Routes.GateShortCircuits | server/routes.ts:9-17 | Every admin route without the right secret answers 401 and leaves the store exactly as it was. |
| Routes.ReadsDoNotWrite | server/routes.ts:19-45 | The public routes (list, get, résumé read) never change the store and answer only 200 or 404. |
| Routes.StepPreservesValid | server/routes.ts:47-126 | Every request, accepted or not, keeps the database's key constraints. |
| Routes.GetProjectRoute | server/routes.ts:31-45 | `GET /api/projects/:id` answers 404 exactly when the project is absent, and otherwise 200 with the stored record. The store is unchanged. |
| Routes.CreateProjectRoute | server/routes.ts:47-60 | Past the gate, an invalid body gives 400 and no write. A valid one gives 201 with the row built from the body, the server id and the time; that row is then readable and listed once. |
| Routes.UpdateProjectRoute | server/routes.ts:62-81 | Past the gate: 400 for an invalid body, and 404 with no write for an unknown id. Otherwise 200 with the merged record, which is what is then stored. |
| Routes.DeleteProjectRoute | server/routes.ts:83-98 | Past the gate, 404 exactly when the project did not exist. Afterwards a read of it and a repeated delete both answer 404. |
| Routes.PutResumeRoute | server/routes.ts:111-126 | Past the gate, a missing, empty or non-string `resumeUrl` gives 400 with no write. Otherwise the link is stored and echoed, and `GET /api/resume` then returns it. |
| Routes.FirstProjectAnonymous | server/routes.ts:47-60 | On an empty database, a create without the secret is rejected and stores nothing. |
| Routes.FirstProjectScenario | server/routes.ts:47-60 | On an empty database, a create with the secret answers 201 with the server id, and the listing then holds exactly that project. |
| Navbar.ActiveItems | client/src/components/navbar.tsx:23-26 | The highlighted links of a location: every link the rule activates is included, and there is never more than one. |
| Navbar.HomeActiveIffRoot | client/src/components/navbar.tsx:24-26 | Home is highlighted on `/` and on no other location. |
| Navbar.PrefixActivates | client/src/components/navbar.tsx:24-26 | A link other than Home is highlighted exactly when the location starts with its path, so `/admin` is also highlighted on `/administrator`. |
| Navbar.ExactMatchActive | client/src/components/navbar.tsx:24 | Every link is highlighted on its own path. |
| Navbar.AtMostOneActive | client/src/components/navbar.tsx:6-26 | No location highlights two links. |
| PageManager.StripDisallowed | client/src/components/page-manager.tsx:132 | The result holds only lower-case letters, digits, white space and hyphens, is no longer than the input, and a string made only of those is unchanged. |
| PageManager.StripChar | client/src/components/page-manager.tsx:132 | A single character is kept exactly when the class `[^a-z0-9\s-]` does not match it, and removed otherwise. |
| PageManager.StripAppend | client/src/components/page-manager.tsx:132 | Stripping a concatenation strips each part, so with `StripChar` the result is exactly the kept characters of the input, in order. |
| PageManager.CollapseRuns | client/src/components/page-manager.tsx:133 | The result has no white space, every character other than `-` comes from the input, and a string without white space is unchanged. |
| PageManager.ReplaceKeepsChars | client/src/components/page-manager.tsx:133 | Replacing runs only adds `-`: every other character of the result comes from the input. |
| PageManager.NoRunUnchanged | client/src/components/page-manager.tsx:133 | Text with no character of the class is left as it is. |
| PageManager.ReplaceAppend | client/src/components/page-manager.tsx:133 | Replacing runs in a concatenation replaces them in the first part, then in the second part, continuing any run the first part ends in. |
| PageManager.WholeRun | client/src/components/page-manager.tsx:133 | A non-empty run of the class becomes exactly one `-`, or nothing when it continues a run already replaced. |
| PageManager.ReplaceSplit | client/src/components/page-manager.tsx:133 | A maximal run between two texts becomes exactly one `-`, and the texts on either side are replaced on their own. |
| PageManager.CollapseSplit | client/src/components/page-manager.tsx:133 | A maximal white-space run of any length between two texts becomes exactly one `-`, and the texts on either side collapse on their own. |
| PageManager.SlugJoinsWords | client/src/components/page-manager.tsx:129-135 | Two slug words separated by any non-empty white-space run give the words joined by a single `-`. |
| PageManager.GenerateSlug | client/src/components/page-manager.tsx:129-135 | A slug contains only `a-z`, `0-9` and `-`, and is never longer than the title. |
| PageManager.StripKeepsAlnum | client/src/components/page-manager.tsx:132 | Removing disallowed characters loses no letter or digit and keeps their order. |
| PageManager.CollapseKeepsAlnum | client/src/components/page-manager.tsx:133 | Replacing white-space runs loses no letter or digit and keeps their order. |
| PageManager.SlugKeepsAlnum | client/src/components/page-manager.tsx:129-135 | The slug's letters and digits are exactly those of the lower-cased title, in order. |
| PageManager.SlugFixedPoint | client/src/components/page-manager.tsx:129-135 | A string made of slug characters is its own slug. |
| PageManager.SlugFixedPointIff | client/src/components/page-manager.tsx:129-135 | A string is its own slug exactly when it consists of slug characters. |
| PageManager.SlugIdempotent | client/src/components/page-manager.tsx:129-135 | Generating a slug from a slug changes nothing. |
| PageManager.SlugKeepsHyphens | client/src/components/page-manager.tsx:132-133 | Hyphens in the title survive next to the replaced runs: two slug words around a `-` with white space on both sides give three hyphens, as `"a - b"` gives `"a---b"`. |
| PageManager.SlugKeepsTrailingHyphen | client/src/components/page-manager.tsx:133-134 | The final `trim` runs after the runs are replaced, so white space after a slug word becomes a trailing hyphen: `"hi "` gives `"hi-"`. |
| PageManager.SlugKeepsLeadingHyphen | client/src/components/page-manager.tsx:133-134 | Likewise white space before a slug word becomes a leading hyphen. |
| PageManager.HandleEdit | client/src/components/page-manager.tsx:109-118 | Opens the form in edit mode on the page, with the page's title, slug, content and published flag copied into the form. |
| PageManager.HandleTitleChange | client/src/components/page-manager.tsx:137-143 | Sets the title and sets the slug to the one generated from that title. Content, published flag and mode are unchanged. |
| PageManager.SetSlug | client/src/components/page-manager.tsx:195-197 | A hand-edited slug replaces the slug and leaves the title alone. |
| PageManager.HandleSubmit | client/src/components/page-manager.tsx:120-127 | Sends an update of the edited page's id exactly when a page is being edited, and a create otherwise. The form is sent as it stands. |
| PageManager.FormPatch | client/src/components/page-manager.tsx:60-64 | The update request carries the whole form: title, slug, content and published flag are all supplied. |
| PageManager.ResetThenCreate | client/src/components/page-manager.tsx:103-107 | After a reset, typing a title and submitting creates a published, empty page with the generated slug, whatever was open before. |
| PageManager.EditUnchangedKeepsPage | client/src/components/page-manager.tsx:109-127 | Opening a page and submitting it untouched sends an update of that page that changes nothing but `updatedAt`. |
| PageManager.TitleChangeOverridesSlug | client/src/components/page-manager.tsx:137-143 | A title change discards a hand-edited slug. |
| Utils.FindParagraph | client/src/lib/utils.ts:18 | Finds the first line that is not blank and does not start with `#`, and finds nothing exactly when there is no such line. |
| Utils.FirstParagraph | client/src/lib/utils.ts:17-18 | The line found is the first of the lines `markdown.split('\n')` that is a paragraph line: it is one of those lines, no earlier line is a paragraph line, and nothing is found exactly when none of them is. |
| Utils.Truncate | client/src/lib/utils.ts:20 | A text within the limit is returned unchanged. A longer one becomes its first `maxLength` characters plus `"..."`, so the result is never longer than the limit plus 3. |
| Utils.ExtractFirstParagraph | client/src/lib/utils.ts:16-21 | The summary is the trimmed first paragraph line, cut to the limit. When there is no paragraph line it is "No description available" (cut to the limit). It is never longer than the limit plus 3. |
| Utils.DefaultLimit | client/src/lib/utils.ts:16-21 | With the default limit the summary is at most 153 characters. A document without a paragraph line reads "No description available". |
| Utils.LeadingLinesSkipped | client/src/lib/utils.ts:17-19 | Leading headings and blank lines are skipped, and the first paragraph line is chosen whatever follows it. |
| Utils.NoParagraphLine | client/src/lib/utils.ts:17-20 | In a document made only of headings and blank lines no line is found, and the summary is the fallback text. |
| ProjectCard.Thumbnail | client/src/components/project-card.tsx:10 | The thumbnail is never empty. It is the first image when that is present and non-empty, and the placeholder otherwise. |
| ProjectCard.DisplayDescriptionAsWritten | client/src/components/project-card.tsx:13-24 | A non-blank description is shown cut at 150 characters. For a blank one the text always ends in `"..."`, and with no paragraph line it is `"undefined..."`. |
| ProjectCard.DisplayDescription | client/src/components/project-card.tsx:13-24 | Corrected card text. It is the same except that a project with neither description nor paragraph line shows "No description available". |
| ProjectCard.AsWrittenDiffersOnlyWithoutText | client/src/components/project-card.tsx:23 | The two versions differ exactly on projects with a blank description and no paragraph line. |
| ProjectCard.UndefinedWitness | client/src/components/project-card.tsx:21-23 | A project with an empty description and a single heading as markdown shows `"undefined..."` on its card. |
| ProjectCard.CardVersusSummary | client/src/components/project-card.tsx:21-23 | Compared with `extractFirstParagraph`, a long paragraph line gives the same card text. A short one gets an extra `"..."`. |
| AdminPanel.RemoveIndex | client/src/pages/admin-panel.tsx:202 | `filter((_, i) => i !== index)`: the element at `index` is dropped and the others keep their order. An index past the end changes nothing. |
| AdminPanel.Spread | client/src/pages/admin-panel.tsx:216 | `[...currentImages]` has the same length, turns every hole into `undefined` and keeps every other element. A list without holes is copied unchanged. |
| AdminPanel.AssignAt | client/src/pages/admin-panel.tsx:217 | `newImages[index] = value` puts the value at the index and keeps every other element. Positions between the old end and the index become holes. |
| AdminPanel.Visited | client/src/pages/admin-panel.tsx:206 | The elements `filter` visits leave out every hole, keep `undefined`, and are the whole list when it has no holes. |
| AdminPanel.VisitedAppend | client/src/pages/admin-panel.tsx:206 | Skipping holes in a concatenation skips them in each part, so with `VisitedOne` the result is exactly the non-hole elements in order. |
| AdminPanel.VisitedKeepsValues | client/src/pages/admin-panel.tsx:206 | Skipping holes loses no string. |
| AdminPanel.NonBlank | client/src/pages/admin-panel.tsx:160 | The filter keeps no blank entry and never adds one. |
| AdminPanel.NonBlankAppend | client/src/pages/admin-panel.tsx:160 | Filtering a concatenation is the concatenation of the filtered parts. |
| AdminPanel.NonBlankKeepsFilled | client/src/pages/admin-panel.tsx:160 | The filter leaves a list without blank entries unchanged. |
| AdminPanel.NonBlankDropsBlank | client/src/pages/admin-panel.tsx:160 | The filter empties a list of blank entries. |
| AdminPanel.ValidateProjectForm | client/src/pages/admin-panel.tsx:22-25 | The form passes exactly when it has at least one image, every image is a URL and the description is non-empty, and then the data is the form's values. On failure, each problem is reported exactly when it is present. |
| AdminPanel.ValidateResumeForm | client/src/pages/admin-panel.tsx:27-29 | The résumé form passes exactly when the link is a URL, and then it yields that link. |
| AdminPanel.HandleProjectSubmit | client/src/pages/admin-panel.tsx:159-170 | Sends an update of the edited project exactly when one is being edited, and a create otherwise. The form's fields are sent with blank images dropped. |
| AdminPanel.SubmittedBodyAccepted | client/src/pages/admin-panel.tsx:159-170 | The server's create parser reads the panel's body back field for field, and its partial parser sees every field supplied. |
| AdminPanel.SubmitFilterNoOp | client/src/pages/admin-panel.tsx:160 | When blank strings are not URLs, a form that passed validation has no blank image, so the submit filter drops nothing. |
| AdminPanel.HandleEditProject | client/src/pages/admin-panel.tsx:176-189 | Edit mode on the project, with its fields copied into the form. The inputs show its images, or one empty input when it has none. |
| AdminPanel.CancelEdit | client/src/pages/admin-panel.tsx:191-195 | Cancelling returns to the initial state: not editing, one empty input and the default form. |
| AdminPanel.AddImageInput | client/src/pages/admin-panel.tsx:197-199 | Appends one empty input and leaves the existing inputs and the form alone. |
| AdminPanel.RemoveImageInput | client/src/pages/admin-panel.tsx:201-208 | Removes the input and the form entry at the index. The form's list becomes the remaining elements with holes skipped and `undefined` kept, or `[""]` when none remain. Neither list is ever left empty, and a list of strings stays one. |
| AdminPanel.UpdateImageInput | client/src/pages/admin-panel.tsx:210-219 | As written: the input at the index gets the value. The form's list is spread, so its holes become `undefined`, and the value is assigned at the index, which leaves holes between the old end and the index. |
| AdminPanel.GetPreviewData | client/src/pages/admin-panel.tsx:221-230 | Fails (the `trim` TypeError) exactly when the form's list holds an `undefined`. Otherwise empty title, description and content get their placeholder texts, and the images are the non-blank strings, or the placeholder image when there are none. |
| AdminPanel.PreviewMatchesSubmit | client/src/pages/admin-panel.tsx:221-230 | For a valid form the preview is built, and it shows exactly the images a submit sends, whenever it sends any. |
| AdminPanel.EditSaveRoundTrip | client/src/pages/admin-panel.tsx:176-189 | Opening a complete project and saving it untouched sends an update of that project which leaves it exactly as it was. |
| AdminPanel.ResumeSubmitStored | client/src/pages/admin-panel.tsx:139-144 | With matching secrets, a résumé link the form accepts is stored with 200 and then served back by `GET /api/resume`. |
| AdminPanel.AlignedAgrees | client/src/pages/admin-panel.tsx:197-223 | While the form's list mirrors the inputs, it holds only strings, the preview is built, and a submit sends exactly the non-blank inputs on screen. |
| AdminPanel.UpdateImageInputPadded | client/src/pages/admin-panel.tsx:210-219 | Corrected update: the input gets the value, and so does the form entry at the index. Other entries are copied as the spread copies them. Positions between a shorter list's end and the index hold `""`, so the list never gains a hole, and a list of strings stays one. |
| AdminPanel.InitialAligned | client/src/pages/admin-panel.tsx:41-61 | The initial inputs and default form agree. |
| AdminPanel.EditAligned | client/src/pages/admin-panel.tsx:181-182 | Opening a project for editing leaves inputs and form in agreement. |
| AdminPanel.AddKeepsAligned | client/src/pages/admin-panel.tsx:197-199 | Adding an input keeps the agreement. |
| AdminPanel.RemoveKeepsAligned | client/src/pages/admin-panel.tsx:201-208 | Removing an input keeps the agreement. |
| AdminPanel.UpdatePaddedKeepsAligned | client/src/pages/admin-panel.tsx:210-219 | The corrected update keeps the agreement. |
| AdminPanel.DroppedImageWitness | client/src/pages/admin-panel.tsx:201-219 | As written, this sequence loses an image: add, add, type `C` in the third input, remove the first, type `X` in the first. The screen shows `X` and `C`, but the form holds only `X`. |
| AdminPanel.HoleDropped | client/src/pages/admin-panel.tsx:201-219 | With three empty inputs, typing `C` into the third leaves a hole at position 1 of the form's list, and removing the first input then leaves the form holding only `C`. |
| AdminPanel.PaddedKeepsImage | client/src/pages/admin-panel.tsx:201-219 | With the corrected update the same clicks keep `X` and `C` in the form, in agreement with the screen. |
| AdminPanel.UndefinedImageWitness | client/src/pages/admin-panel.tsx:210-223 | As written, add, add, type `C` in the third input and `u` in the first: the form's list is `[u, undefined, C]` and the preview throws. Removing the third input leaves `[u, undefined]`, which fails validation whatever counts as a URL. |
| AdminPanel.PaddedPreviewWitness | client/src/pages/admin-panel.tsx:210-223 | With the corrected update the same clicks give `[u, "", C]`, and the preview is built. |

## Left out

- Database access, HTTP transport and Express routing are left out. A request arrives already matched to its route, and
  the response is a value.
- The 500 answers on database failure are left out, except a create whose generated id collides.
- A partial update that supplies no field is modelled as a no-op. In the database layer it raises an error that would
  become a 500.
- A failed insert may consume a serial number; the counters advance only on success.
- Rows with equal `createdAt` keep their insertion order in the listings. The database leaves that order unspecified.
- `GetPageBySlug` returns the first page with the slug; slugs are not declared unique.
- Routes.GetProjectRoute, Routes.UpdateProjectRoute and Routes.DeleteProjectRoute treat a project id as any string,
  so a malformed id answers 404. The id column is a Postgres `uuid`: there a malformed id makes the query raise, and
  the route's `catch` answers 500.
- PageManager.EditUnchangedKeepsPage assumes the server's page update route applies the sent fields as a partial
  update through `updatePage`. That route is not part of this model.
- Only the users table's keyed insert and lookup are modelled; sessions and the login flow are not part of this model.
- The page table's definition is not part of the shown schema file. The page row and its update follow the storage
  code's use of it.
- JSON numbers are integers, query parameters are strings, and header names arrive lower-cased.
- The admin secret compiled into the client is left out. `AdminPanel.ResumeSubmitStored` assumes it equals the
  server's secret.
- `toLowerCase` is modelled on ASCII letters only; other characters pass unchanged. Strings are sequences of
  characters, with no UTF-16 surrogate pairs.
- `z.string().url()` is the parameter `isUrl`. Where a property needs blank strings to fail it, that is the stated
  assumption `RejectsBlank`.
- AdminPanel.ValidateProjectForm reports the per-element URL failures as one `InvalidImage` issue, because the panel
  shows only the list-level message.
- AdminPanel.UpdateImageInput requires the index to be below the number of inputs on screen, because it is only called
  with the position of a rendered input.
- The form library is assumed to store the image array exactly as it is given, holes included.
- The browser's `required` attributes on the page form are left out. They block empty title, slug and content before
  submit, and the model submits the form as it stands.
- The "New Page" button's `setIsCreating(true)` is left out. It only shows the blank form.
- The post-success resets are left out as separate operations. After an update, the admin panel reset is
  `AdminPanel.CancelEdit`. After a create, the form and inputs are reset while nothing is being edited, which gives the
  same state.
- PageManager.ResetForm carries no contract of its own: it returns the initial editor, and `ResetThenCreate` states
  what follows from it.
- Rendering, toasts, query caching and the preview dialog's image layout are left out. A preview that throws is
  `None`; what the page then shows is left out.
- The concurrent-write race in `setSetting` (a read followed by an insert) is left out. Each request is one atomic step.

## Findings

| source | as written | input that shows it | evidently intended | confidence | as-written member | corrected member |
|---|---|---|---|---|---|---|
| client/src/components/project-card.tsx:23 | the card appends `"..."` to the optional chain `firstParagraph?.trim().substring(0, 150)` before the "No description available" fallback is tried: with no paragraph line the optional chain gives `undefined`, and `+ "..."` turns it into the truthy text `"undefined..."`, so the fallback is never used | a project with description `""` and markdown `"# Heading"` | the card shows "No description available" | not executed | ProjectCard.DisplayDescriptionAsWritten | ProjectCard.DisplayDescription |
| client/src/pages/admin-panel.tsx:210-219 | `newImages[index] = value` on a form list shorter than the inputs leaves holes. `removeImageInput`'s `filter` then drops the holes and shifts later entries, so the form and the inputs on screen drift apart and a typed image is never sent | from the initial state: add, add, type `C` in input 2, remove input 0, type `X` in input 0; the screen shows `X`, `C` and the form holds `X` | the form list mirrors the inputs on screen | not executed | AdminPanel.DroppedImageWitness | AdminPanel.UpdateImageInputPadded |
| client/src/pages/admin-panel.tsx:216-223 | `[...currentImages]` turns the holes left by an earlier update into `undefined`. `getPreviewData` then calls `img.trim()` on that `undefined` and throws. `removeImageInput`'s `filter` keeps it, so the form can no longer pass validation | from the initial state: add, add, type `C` in input 2, type `u` in input 0; the form holds `[u, undefined, C]`, and after removing input 2 it holds `[u, undefined]` | the form list holds only strings | not executed | AdminPanel.UndefinedImageWitness | AdminPanel.UpdateImageInputPadded |

/**
  The project editor of the admin panel: the form and its validation, the
  list of image-URL inputs shown beside it, the handlers that edit both, the
  request a submit sends, and the preview.

  The form's `images` value is a JavaScript array that may be sparse:
  assigning past its end leaves holes, `filter` skips holes, and a spread
  copy `[...xs]` turns each hole into an explicit `undefined`, which `filter`
  then keeps. A slot is therefore a hole, `undefined`, or a string. The URL
  check of the validation schema is the parameter `isUrl`.
 */
module AdminPanel {
  import opened Wrappers
  import opened JsString
  import opened Json
  import opened Schema
  import ProjectCard
  import Routes
  import Storage

  // ---------------------------------------------------------------------------
  // Sparse arrays
  // ---------------------------------------------------------------------------

  /** One element of a possibly sparse array. */
  datatype Slot = Hole | Undef | Val(s: string)

  /** Every element is a string. */
  predicate AllStrings(slots: seq<Slot>) {
    forall j :: 0 <= j < |slots| ==> slots[j].Val?
  }

  /** No element is a hole. */
  predicate NoHoles(slots: seq<Slot>) {
    forall j :: 0 <= j < |slots| ==> !slots[j].Hole?
  }

  /** The dense array of the given strings. */
  function Vals(ss: seq<string>): (r: seq<Slot>)
    ensures |r| == |ss| && AllStrings(r)
    ensures forall j :: 0 <= j < |ss| ==> r[j] == Val(ss[j])
  {
    seq(|ss|, j requires 0 <= j < |ss| => Val(ss[j]))
  }

  /** The strings of an array in order; holes and `undefined` carry none. */
  function Values(slots: seq<Slot>): (r: seq<string>)
    ensures |r| <= |slots|
    ensures AllStrings(slots) ==> Vals(r) == slots
  {
    if slots == [] then []
    else
      var rest := Values(slots[1..]);
      if slots[0].Val? then
        assert Vals([slots[0].s] + rest) == [slots[0]] + Vals(rest);
        [slots[0].s] + rest
      else rest
  }

  /** `[...xs]`: a copy of the same length in which each hole reads as an
      explicit `undefined`. */
  function Spread(slots: seq<Slot>): (r: seq<Slot>)
    ensures |r| == |slots| && NoHoles(r)
    ensures forall j :: 0 <= j < |slots| ==> r[j] == (if slots[j].Hole? then Undef else slots[j])
    ensures NoHoles(slots) ==> r == slots
  {
    seq(|slots|, j requires 0 <= j < |slots| => if slots[j].Hole? then Undef else slots[j])
  }

  /** The elements `filter` visits: every one but the holes, in order. */
  function Visited(slots: seq<Slot>): (r: seq<Slot>)
    ensures |r| <= |slots| && NoHoles(r)
    ensures NoHoles(slots) ==> r == slots
  {
    if slots == [] then []
    else (if slots[0].Hole? then [] else [slots[0]]) + Visited(slots[1..])
  }

  /** `Visited` works element by element: with `VisitedOne` this determines
      it, the elements other than holes in their order. */
  lemma {:induction false} VisitedAppend(a: seq<Slot>, b: seq<Slot>)
    ensures Visited(a + b) == Visited(a) + Visited(b)
  {
    if a == [] {
      assert a + b == b;
    } else {
      assert (a + b)[0] == a[0];
      assert (a + b)[1..] == a[1..] + b;
      VisitedAppend(a[1..], b);
    }
  }

  lemma VisitedOne(x: Slot)
    ensures Visited([x]) == if x.Hole? then [] else [x]
  {
    assert [x][1..] == [];
  }

  /** Skipping holes loses no string. */
  lemma {:induction false} VisitedKeepsValues(slots: seq<Slot>)
    ensures Values(Visited(slots)) == Values(slots)
  {
    if slots != [] {
      VisitedKeepsValues(slots[1..]);
      var rest := Visited(slots[1..]);
      if slots[0].Hole? {
        assert Visited(slots) == [] + rest == rest;
      } else {
        var v := [slots[0]] + rest;
        assert Visited(slots) == v;
        assert v[0] == slots[0] && v[1..] == rest;
        assert Values(v) == (if slots[0].Val? then [slots[0].s] else []) + Values(rest);
      }
    }
  }

  /** `filter((_, i) => i !== index)` on a dense array. */
  function RemoveIndex<T>(xs: seq<T>, index: nat): (r: seq<T>)
    ensures index < |xs| ==> |r| == |xs| - 1
    ensures index >= |xs| ==> r == xs
    ensures forall j :: 0 <= j < |r| ==> r[j] == (if j < index then xs[j] else xs[j + 1])
  {
    if index < |xs| then xs[..index] + xs[index + 1..] else xs
  }

  /** `array[index] = value` on a copy: past the end, the positions in
      between become holes. */
  function AssignAt(slots: seq<Slot>, index: nat, value: string): (r: seq<Slot>)
    ensures |r| == if index < |slots| then |slots| else index + 1
    ensures r[index] == Val(value)
    ensures forall j :: 0 <= j < |slots| && j != index ==> r[j] == slots[j]
    ensures forall j :: |slots| <= j < index ==> r[j] == Hole
  {
    if index < |slots| then slots[index := Val(value)]
    else slots + seq(index - |slots|, _ => Hole) + [Val(value)]
  }

  // ---------------------------------------------------------------------------
  // Blank filtering
  // ---------------------------------------------------------------------------

  /** `images.filter(img => img.trim() !== "")`; a trimmed string is empty
      exactly when the string is blank. */
  function NonBlank(images: seq<string>): (r: seq<string>)
    ensures |r| <= |images|
    ensures forall k :: 0 <= k < |r| ==> !IsBlank(r[k])
  {
    if images == [] then []
    else (if !IsBlank(images[0]) then [images[0]] else []) + NonBlank(images[1..])
  }

  /** Filtering commutes with concatenation: the kept entries keep their
      order, and whether one is kept depends on that entry alone. */
  lemma {:induction false} NonBlankAppend(a: seq<string>, b: seq<string>)
    ensures NonBlank(a + b) == NonBlank(a) + NonBlank(b)
  {
    if a == [] {
      assert a + b == b;
    } else {
      assert (a + b)[0] == a[0];
      assert (a + b)[1..] == a[1..] + b;
      NonBlankAppend(a[1..], b);
    }
  }

  /** Nothing is dropped from a list without blank entries. */
  lemma {:induction false} NonBlankKeepsFilled(images: seq<string>)
    requires forall k :: 0 <= k < |images| ==> !IsBlank(images[k])
    ensures NonBlank(images) == images
  {
    if images != [] {
      NonBlankKeepsFilled(images[1..]);
    }
  }

  /** Everything is dropped from a list of blank entries. */
  lemma {:induction false} NonBlankDropsBlank(images: seq<string>)
    requires forall k :: 0 <= k < |images| ==> IsBlank(images[k])
    ensures NonBlank(images) == []
  {
    if images != [] {
      NonBlankDropsBlank(images[1..]);
    }
  }

  // ---------------------------------------------------------------------------
  // Forms and validation
  // ---------------------------------------------------------------------------

  datatype ProjectForm = ProjectForm(title: string, description: string, markdown: string, images: seq<Slot>)

  /** `defaultValues`, also what `projectForm.reset()` restores. */
  const DefaultForm := ProjectForm("", "", "", [Val("")])

  /** The editor: the project being edited, if any, the image inputs on
      screen, and the form's values. */
  datatype AdminState = AdminState(editing: Option<Project>, imageInputs: seq<string>, form: ProjectForm)

  const InitialState := AdminState(None, [""], DefaultForm)

  /** A validated form: `images` holds only strings. */
  datatype ProjectData = ProjectData(title: string, description: string, markdown: string, images: seq<string>)

  /** What validation reports. Element-level URL failures are reported as
      one issue: the panel shows only the list's own message. */
  datatype FormIssue =
    | ImagesRequired      // "At least one image is required"
    | InvalidImage        // some element is not a URL
    | DescriptionRequired // "Project description is required"
    | InvalidResumeUrl    // "Please enter a valid URL"

  /** An element that passes `z.string().url()`: the schema reads a hole as
      `undefined`, and `undefined` is not a string. */
  predicate ValidImage(isUrl: string -> bool, slot: Slot) {
    slot.Val? && isUrl(slot.s)
  }

  predicate AllValidImages(isUrl: string -> bool, slots: seq<Slot>) {
    forall j :: 0 <= j < |slots| ==> ValidImage(isUrl, slots[j])
  }

  /** `projectFormSchema`: at least one image, every image a URL, a non-empty
      description; title and markdown are any strings. */
  predicate ProjectFormValid(isUrl: string -> bool, form: ProjectForm) {
    |form.images| >= 1 && AllValidImages(isUrl, form.images) && form.description != ""
  }

  /** `zodResolver(projectFormSchema)`: the validated data, or every issue. */
  function ValidateProjectForm(isUrl: string -> bool, form: ProjectForm): (r: Result<ProjectData, seq<FormIssue>>)
    ensures r.Ok? <==> ProjectFormValid(isUrl, form)
    ensures r.Ok? ==> r.value.title == form.title && r.value.description == form.description
    ensures r.Ok? ==> r.value.markdown == form.markdown && Vals(r.value.images) == form.images
    ensures r.Err? ==> (ImagesRequired in r.error <==> |form.images| == 0)
    ensures r.Err? ==> (InvalidImage in r.error <==> !AllValidImages(isUrl, form.images))
    ensures r.Err? ==> (DescriptionRequired in r.error <==> form.description == "")
  {
    var issues :=
      (if |form.images| == 0 then [ImagesRequired] else [])
      + (if AllValidImages(isUrl, form.images) then [] else [InvalidImage])
      + (if form.description == "" then [DescriptionRequired] else []);
    if issues == [] then
      assert AllStrings(form.images);
      Ok(ProjectData(form.title, form.description, form.markdown, Values(form.images)))
    else
      Err(issues)
  }

  /** `zodResolver(resumeFormSchema)`. */
  function ValidateResumeForm(isUrl: string -> bool, resumeUrl: string): (r: Result<string, FormIssue>)
    ensures r.Ok? <==> isUrl(resumeUrl)
    ensures r.Ok? ==> r.value == resumeUrl
    ensures r.Err? ==> r.error == InvalidResumeUrl
  {
    if isUrl(resumeUrl) then Ok(resumeUrl) else Err(InvalidResumeUrl)
  }

  /** No blank string is a URL. */
  ghost predicate RejectsBlank(isUrl: string -> bool) {
    forall s :: IsBlank(s) ==> !isUrl(s)
  }

  // ---------------------------------------------------------------------------
  // Submitting
  // ---------------------------------------------------------------------------

  /** The request a submit sends. */
  datatype ProjectCall =
    | CreateProjectCall(data: ProjectData)              // POST /api/projects
    | UpdateProjectCall(id: string, data: ProjectData)  // PUT  /api/projects/:id

  /** `handleProjectSubmit`: blank image entries are dropped, then the edited
      project is updated or a new one created. */
  function HandleProjectSubmit(st: AdminState, data: ProjectData): (r: ProjectCall)
    ensures r.UpdateProjectCall? <==> st.editing.Some?
    ensures r.UpdateProjectCall? ==> r.id == st.editing.value.id
    ensures r.data.title == data.title && r.data.description == data.description
    ensures r.data.markdown == data.markdown
    ensures r.data.images == NonBlank(data.images)
  {
    var sent := data.(images := NonBlank(data.images));
    match st.editing
    case Some(p) => UpdateProjectCall(p.id, sent)
    case None => CreateProjectCall(sent)
  }

  /** Every field of the data, as a partial update. */
  function DataPatch(data: ProjectData): ProjectPatch {
    ProjectPatch(Some(data.title), Some(data.description), Some(data.markdown), Some(data.images))
  }

  /** The JSON body of either request. */
  function DataJson(data: ProjectData): Json {
    ProjectPatchJson(DataPatch(data))
  }

  /** The server accepts what the panel sends: as a new project it is read
      back field for field, and as a partial update every field is supplied. */
  lemma SubmittedBodyAccepted(data: ProjectData)
    ensures ParseNewProject(DataJson(data))
      == Ok(NewProject(data.title, Some(data.description), data.markdown, Some(data.images)))
    ensures ParseProjectPatch(DataJson(data)) == Ok(DataPatch(data))
  {
    var body := DataJson(data);
    ProjectPatchRoundTrip(DataPatch(data));
    assert ReadString(body, "title") == Present(data.title);
    assert ReadString(body, "description") == Present(data.description);
    assert ReadString(body, "markdown") == Present(data.markdown);
    assert ReadStrings(body, "images") == Present(data.images);
  }

  /** When blank strings are not URLs, a form that passes validation has no
      blank image, so the filter in `handleProjectSubmit` drops nothing. */
  lemma SubmitFilterNoOp(isUrl: string -> bool, st: AdminState)
    requires RejectsBlank(isUrl)
    requires ProjectFormValid(isUrl, st.form)
    ensures var data := ValidateProjectForm(isUrl, st.form).value;
      HandleProjectSubmit(st, data).data == data
  {
    var data := ValidateProjectForm(isUrl, st.form).value;
    forall k | 0 <= k < |data.images| ensures !IsBlank(data.images[k]) {
      assert st.form.images[k] == Val(data.images[k]);
    }
    NonBlankKeepsFilled(data.images);
  }

  // ---------------------------------------------------------------------------
  // Editing handlers
  // ---------------------------------------------------------------------------

  /** `handleEditProject`: load the project into the form and the inputs; an
      image-less project gets one empty input (the form's list stays empty). */
  function HandleEditProject(st: AdminState, p: Project): (r: AdminState)
    ensures r.editing == Some(p)
    ensures r.form == ProjectForm(p.title, p.description, p.markdown, Vals(p.images))
    ensures |p.images| > 0 ==> r.imageInputs == p.images
    ensures |p.images| == 0 ==> r.imageInputs == [""]
  {
    AdminState(Some(p), if |p.images| > 0 then p.images else [""],
      ProjectForm(p.title, p.description, p.markdown, Vals(p.images)))
  }

  /** `handleCancelEdit`, which the update mutation's success also runs. */
  function CancelEdit(st: AdminState): (r: AdminState)
    ensures r == InitialState
  {
    AdminState(None, [""], DefaultForm)
  }

  /** `addImageInput`: one more empty input; the form is not touched. */
  function AddImageInput(st: AdminState): (r: AdminState)
    ensures |r.imageInputs| == |st.imageInputs| + 1
    ensures r.imageInputs[..|st.imageInputs|] == st.imageInputs
    ensures r.imageInputs[|st.imageInputs|] == ""
    ensures r.form == st.form && r.editing == st.editing
  {
    st.(imageInputs := st.imageInputs + [""])
  }

  /** `removeImageInput`: position `index` leaves both lists; the form's
      `filter` also drops its holes but keeps any `undefined`. A list left
      empty becomes `[""]`. */
  function RemoveImageInput(st: AdminState, index: nat): (r: AdminState)
    ensures r.imageInputs != [] && r.form.images != []
    ensures |st.imageInputs| > 1 && index < |st.imageInputs| ==>
      r.imageInputs == st.imageInputs[..index] + st.imageInputs[index + 1..]
    ensures var kept := Visited(RemoveIndex(st.form.images, index));
      r.form.images == if kept == [] then [Val("")] else kept
    ensures NoHoles(r.form.images)
    ensures AllStrings(st.form.images) ==> AllStrings(r.form.images)
    ensures r.editing == st.editing
    ensures r.form.title == st.form.title && r.form.description == st.form.description
    ensures r.form.markdown == st.form.markdown
  {
    var inputs := RemoveIndex(st.imageInputs, index);
    var kept := Visited(RemoveIndex(st.form.images, index));
    RemoveKeepsStrings(st.form.images, index);
    st.(imageInputs := if inputs == [] then [""] else inputs,
        form := st.form.(images := if kept == [] then [Val("")] else kept))
  }

  /** Removing a position from a list of strings and skipping holes leaves
      a list of strings. */
  lemma RemoveKeepsStrings(slots: seq<Slot>, index: nat)
    ensures AllStrings(slots) ==> AllStrings(Visited(RemoveIndex(slots, index)))
  {
    if AllStrings(slots) {
      var ri := RemoveIndex(slots, index);
      forall j | 0 <= j < |ri| ensures ri[j].Val? {
        if j < index {
          assert ri[j] == slots[j];
        } else {
          assert ri[j] == slots[j + 1];
        }
      }
      assert Visited(ri) == ri;
    }
  }

  /** `updateImageInput` as the code stands: the input list is updated in
      place; the form's list is copied with a spread, which turns its holes
      into `undefined`, and the same index is assigned in the copy, which
      may be shorter and then gains holes. */
  function UpdateImageInput(st: AdminState, index: nat, value: string): (r: AdminState)
    requires index < |st.imageInputs|
    ensures r.imageInputs == st.imageInputs[index := value]
    ensures r.form.images == AssignAt(Spread(st.form.images), index, value)
    ensures |r.form.images| == if index < |st.form.images| then |st.form.images| else index + 1
    ensures r.form.images[index] == Val(value)
    ensures forall j :: 0 <= j < |st.form.images| && j != index ==>
      r.form.images[j] == (if st.form.images[j].Hole? then Undef else st.form.images[j])
    ensures forall j :: |st.form.images| <= j < index ==> r.form.images[j] == Hole
    ensures r.editing == st.editing
  {
    st.(imageInputs := st.imageInputs[index := value],
        form := st.form.(images := AssignAt(Spread(st.form.images), index, value)))
  }

  /** The preview card's data. */
  datatype Preview = Preview(title: string, description: string, markdown: string, images: seq<string>)

  /** Some element `filter` visits is `undefined`. */
  predicate HasUndefined(slots: seq<Slot>) {
    exists j :: 0 <= j < |slots| && slots[j].Undef?
  }

  /** `getPreviewData`: empty text fields get placeholders, and with no
      non-blank image left the stock image is shown. Its filter calls
      `img.trim()` on every element it visits, which throws on `undefined`:
      `None` is that TypeError. */
  function GetPreviewData(form: ProjectForm): (r: Option<Preview>)
    ensures r.None? <==> exists j :: 0 <= j < |form.images| && form.images[j].Undef?
    ensures r.Some? ==> r.value.title == (if form.title == "" then "Untitled Project" else form.title)
    ensures r.Some? ==>
      r.value.description == (if form.description == "" then "No description provided." else form.description)
    ensures r.Some? ==> r.value.markdown == (if form.markdown == "" then "No content provided." else form.markdown)
    ensures r.Some? && NonBlank(Values(form.images)) == [] ==> r.value.images == [ProjectCard.PlaceholderImage]
    ensures r.Some? && NonBlank(Values(form.images)) != [] ==> r.value.images == NonBlank(Values(form.images))
  {
    if HasUndefined(form.images) then None
    else
      var valid := NonBlank(Values(form.images));
      Some(Preview(
        if form.title == "" then "Untitled Project" else form.title,
        if form.description == "" then "No description provided." else form.description,
        if form.markdown == "" then "No content provided." else form.markdown,
        if |valid| > 0 then valid else [ProjectCard.PlaceholderImage]))
  }

  /** The preview shows exactly the images a submit would send. */
  lemma PreviewMatchesSubmit(isUrl: string -> bool, st: AdminState)
    requires ProjectFormValid(isUrl, st.form)
    ensures var data := ValidateProjectForm(isUrl, st.form).value;
      var sent := HandleProjectSubmit(st, data).data.images;
      && GetPreviewData(st.form).Some?
      && (sent != [] ==> GetPreviewData(st.form).value.images == sent)
  {
    var data := ValidateProjectForm(isUrl, st.form).value;
    forall j | 0 <= j < |st.form.images| ensures !st.form.images[j].Undef? {
      assert ValidImage(isUrl, st.form.images[j]);
    }
    assert Values(Vals(data.images)) == data.images by {
      ValuesOfVals(data.images);
    }
  }

  lemma {:induction false} ValuesOfVals(ss: seq<string>)
    ensures Values(Vals(ss)) == ss
  {
    if ss != [] {
      assert Vals(ss)[1..] == Vals(ss[1..]);
      ValuesOfVals(ss[1..]);
    }
  }

  /** Opening a complete project and saving it untouched sends an update of
      that project that leaves it exactly as it was. */
  lemma EditSaveRoundTrip(isUrl: string -> bool, st: AdminState, p: Project)
    requires RejectsBlank(isUrl)
    requires |p.images| >= 1 && p.description != ""
    requires forall j :: 0 <= j < |p.images| ==> isUrl(p.images[j])
    ensures var edited := HandleEditProject(st, p);
      && ValidateProjectForm(isUrl, edited.form).Ok?
      && var call := HandleProjectSubmit(edited, ValidateProjectForm(isUrl, edited.form).value);
      && call.UpdateProjectCall? && call.id == p.id
      && ApplyProjectPatch(p, DataPatch(call.data)) == p
  {
    var edited := HandleEditProject(st, p);
    assert ProjectFormValid(isUrl, edited.form);
    SubmitFilterNoOp(isUrl, edited);
    var data := ValidateProjectForm(isUrl, edited.form).value;
    assert Vals(data.images) == Vals(p.images);
    ValuesOfVals(data.images);
    ValuesOfVals(p.images);
  }

  /** When the client's secret matches the server's and blank strings are not
      URLs, a résumé URL the form accepts is stored and then served back. */
  lemma ResumeSubmitStored(
    isUrl: string -> bool, resumeUrl: string, cfg: Routes.Config, st: Storage.Store,
    freshId: string, now: int)
    requires RejectsBlank(isUrl) && ValidateResumeForm(isUrl, resumeUrl).Ok?
    requires Storage.Valid(st)
    ensures var req := Routes.Request(Routes.PutResume,
        map["x-admin-secret" := Routes.AdminSecret(cfg)], map[],
        JObject(map["resumeUrl" := JString(resumeUrl)]));
      var (st', resp) := Routes.Step(cfg, st, req, freshId, now);
      && resp.status == 200
      && Routes.Step(cfg, st', Routes.Request(Routes.GetResume, map[], map[], JNull), freshId, now).1
           == Routes.Response(200, Routes.ResumeJson(Some(resumeUrl)))
  {
    assert !IsBlank(resumeUrl);
    var req := Routes.Request(Routes.PutResume,
        map["x-admin-secret" := Routes.AdminSecret(cfg)], map[],
        JObject(map["resumeUrl" := JString(resumeUrl)]));
    Routes.PutResumeRoute(cfg, st, req, freshId, now);
  }

  // ---------------------------------------------------------------------------
  // The inputs and the form's list drifting apart
  // ---------------------------------------------------------------------------

  /** The form's list is a dense copy of a prefix of the inputs, and every
      input beyond it is empty: then what a submit sends is exactly the
      non-blank inputs on screen. */
  predicate Aligned(st: AdminState) {
    && |st.form.images| <= |st.imageInputs|
    && (forall j :: 0 <= j < |st.form.images| ==> st.form.images[j] == Val(st.imageInputs[j]))
    && (forall j :: |st.form.images| <= j < |st.imageInputs| ==> st.imageInputs[j] == "")
  }

  /** What alignment buys: the form holds only strings, the preview can be
      built, and the form's non-blank values are the non-blank inputs, in
      order. */
  lemma AlignedAgrees(st: AdminState)
    requires Aligned(st)
    ensures AllStrings(st.form.images)
    ensures GetPreviewData(st.form).Some?
    ensures NonBlank(Values(st.form.images)) == NonBlank(st.imageInputs)
  {
    forall j | 0 <= j < |st.form.images| ensures !st.form.images[j].Undef? {
      assert st.form.images[j] == Val(st.imageInputs[j]);
    }
    var k := |st.form.images|;
    var inputs := st.imageInputs;
    assert st.form.images == Vals(inputs[..k]);
    ValuesOfVals(inputs[..k]);
    assert inputs == inputs[..k] + inputs[k..];
    NonBlankAppend(inputs[..k], inputs[k..]);
    NonBlankDropsBlank(inputs[k..]);
  }

  /** `updateImageInput` as evidently intended: the form's copy is padded with
      empty strings, never holes, up to the assigned position. */
  function UpdateImageInputPadded(st: AdminState, index: nat, value: string): (r: AdminState)
    requires index < |st.imageInputs|
    ensures r.imageInputs == st.imageInputs[index := value]
    ensures |r.form.images| == if index < |st.form.images| then |st.form.images| else index + 1
    ensures r.form.images[index] == Val(value)
    ensures forall j :: 0 <= j < |st.form.images| && j != index ==>
      r.form.images[j] == (if st.form.images[j].Hole? then Undef else st.form.images[j])
    ensures forall j :: |st.form.images| <= j < index ==> r.form.images[j] == Val("")
    ensures NoHoles(r.form.images)
    ensures AllStrings(st.form.images) ==> AllStrings(r.form.images)
    ensures r.editing == st.editing
  {
    var images := Spread(st.form.images);
    var padded := if index < |images| then images[index := Val(value)]
      else images + seq(index - |images|, _ => Val("")) + [Val(value)];
    st.(imageInputs := st.imageInputs[index := value], form := st.form.(images := padded))
  }

  lemma InitialAligned()
    ensures Aligned(InitialState)
  {
  }

  lemma EditAligned(st: AdminState, p: Project)
    ensures Aligned(HandleEditProject(st, p))
  {
  }

  lemma AddKeepsAligned(st: AdminState)
    requires Aligned(st)
    ensures Aligned(AddImageInput(st))
  {
  }

  lemma RemoveKeepsAligned(st: AdminState, index: nat)
    requires Aligned(st)
    ensures Aligned(RemoveImageInput(st, index))
  {
    var images := st.form.images;
    var inputs := st.imageInputs;
    var ri := RemoveIndex(images, index);
    var ro := RemoveIndex(inputs, index);
    RemoveIndexAligned(images, inputs, index);
    assert NoHoles(ri) by {
      forall j | 0 <= j < |ri| ensures ri[j].Val? {
        assert ri[j] == Val(ro[j]);
      }
    }
    assert Visited(ri) == ri;
    assert RemoveImageInput(st, index).imageInputs == if ro == [] then [""] else ro;
    assert RemoveImageInput(st, index).form.images == if ri == [] then [Val("")] else ri;
  }

  /** Removing the same position from a mirrored pair of lists keeps them mirrored. */
  lemma RemoveIndexAligned(images: seq<Slot>, inputs: seq<string>, index: nat)
    requires |images| <= |inputs|
    requires forall j :: 0 <= j < |images| ==> images[j] == Val(inputs[j])
    requires forall j :: |images| <= j < |inputs| ==> inputs[j] == ""
    ensures var ri := RemoveIndex(images, index);
      var ro := RemoveIndex(inputs, index);
      && |ri| <= |ro|
      && (forall j :: 0 <= j < |ri| ==> ri[j] == Val(ro[j]))
      && (forall j :: |ri| <= j < |ro| ==> ro[j] == "")
  {
    var ri := RemoveIndex(images, index);
    var ro := RemoveIndex(inputs, index);
    forall j | 0 <= j < |ri| ensures ri[j] == Val(ro[j]) {
      if j < index {
        assert ri[j] == images[j] && ro[j] == inputs[j];
      } else {
        assert ri[j] == images[j + 1] && ro[j] == inputs[j + 1];
      }
    }
    forall j | |ri| <= j < |ro| ensures ro[j] == "" {
      if j < index {
        assert ro[j] == inputs[j];
      } else {
        assert ro[j] == inputs[j + 1];
      }
    }
  }

  lemma UpdatePaddedKeepsAligned(st: AdminState, index: nat, value: string)
    requires Aligned(st)
    requires index < |st.imageInputs|
    ensures Aligned(UpdateImageInputPadded(st, index, value))
  {
  }

  /** The state after two added inputs. */
  lemma ThreeInputs()
    ensures AddImageInput(AddImageInput(InitialState))
      == AdminState(None, ["", "", ""], DefaultForm)
  {
  }

  /** As written, five clicks lose an image. From the initial state: add an
      input twice, type `C` into the third, remove the first, type `X` into
      what is now the first. The screen shows `X` and `C`; the form holds only
      `X`, so `C` is never sent. */
  lemma DroppedImageWitness()
    ensures var s1 := AddImageInput(AddImageInput(InitialState));
      var s2 := RemoveImageInput(UpdateImageInput(s1, 2, "C"), 0);
      var s3 := UpdateImageInput(s2, 0, "X");
      && s3.imageInputs == ["X", "C"]
      && Values(s3.form.images) == ["X"]
      && !Aligned(s3)
  {
    ThreeInputs();
    HoleDropped();
    var s2 := AdminState(None, ["", "C"], ProjectForm("", "", "", [Val("C")]));
    var s3 := UpdateImageInput(s2, 0, "X");
    assert s3.form.images == [Val("X")];
    assert Values([Val("X")]) == ["X"];
    assert s3.imageInputs[1] == "C";
  }

  /** Typing `C` into the third of three inputs leaves a hole in the form's
      list, and removing the first input then drops that hole. */
  lemma HoleDropped()
    ensures var s1 := AdminState(None, ["", "", ""], DefaultForm);
      RemoveImageInput(UpdateImageInput(s1, 2, "C"), 0)
        == AdminState(None, ["", "C"], ProjectForm("", "", "", [Val("C")]))
  {
    var s1 := AdminState(None, ["", "", ""], DefaultForm);
    var u := UpdateImageInput(s1, 2, "C");
    assert u.imageInputs == ["", "", "C"];
    assert u.form.images == [Val(""), Hole, Val("C")];
    assert RemoveIndex(u.form.images, 0) == [Hole, Val("C")];
    assert Visited([Hole, Val("C")]) == [Val("C")];
    assert RemoveIndex(u.imageInputs, 0) == ["", "C"];
  }

  /** The same five clicks with the padded update keep both images. */
  lemma PaddedKeepsImage()
    ensures var s1 := AddImageInput(AddImageInput(InitialState));
      var s2 := RemoveImageInput(UpdateImageInputPadded(s1, 2, "C"), 0);
      var s3 := UpdateImageInputPadded(s2, 0, "X");
      && s3.imageInputs == ["X", "C"]
      && Values(s3.form.images) == ["X", "C"]
      && Aligned(s3)
  {
    ThreeInputs();
    var s1 := AdminState(None, ["", "", ""], DefaultForm);
    var v := UpdateImageInputPadded(s1, 2, "C");
    assert v.imageInputs == ["", "", "C"];
    assert v.form.images == [Val(""), Val(""), Val("C")];
    assert RemoveIndex(v.form.images, 0) == [Val(""), Val("C")];
    assert Values([Val(""), Val("C")]) == ["", "C"];
    var t2 := RemoveImageInput(v, 0);
    assert t2.imageInputs == ["", "C"];
    assert t2.form.images == [Val(""), Val("C")];
    var t3 := UpdateImageInputPadded(t2, 0, "X");
    assert t3.form.images == [Val("X"), Val("C")];
    assert Values([Val("X"), Val("C")]) == ["X", "C"];
  }

  /** As written, four clicks leave an `undefined` in the form. From the
      initial state: add an input twice, type `C` into the third, then type
      `u` into the first. The second update's spread copy turns the hole at
      position 1 into `undefined`, so the preview throws; removing the third
      input keeps the `undefined`, and the form then fails validation
      whatever counts as a URL. */
  lemma UndefinedImageWitness(isUrl: string -> bool, u: string)
    ensures var s1 := AddImageInput(AddImageInput(InitialState));
      var s2 := UpdateImageInput(UpdateImageInput(s1, 2, "C"), 0, u);
      var s3 := RemoveImageInput(s2, 2);
      && s2.imageInputs == [u, "", "C"]
      && s2.form.images == [Val(u), Undef, Val("C")]
      && GetPreviewData(s2.form).None?
      && s3.imageInputs == [u, ""]
      && s3.form.images == [Val(u), Undef]
      && ValidateProjectForm(isUrl, s3.form).Err?
  {
    ThreeInputs();
    var s1 := AdminState(None, ["", "", ""], DefaultForm);
    var a := UpdateImageInput(s1, 2, "C");
    assert a.form.images == [Val(""), Hole, Val("C")];
    assert Spread(a.form.images) == [Val(""), Undef, Val("C")];
    var s2 := UpdateImageInput(a, 0, u);
    assert s2.form.images == [Val(u), Undef, Val("C")];
    assert s2.form.images[1].Undef?;
    assert RemoveIndex(s2.form.images, 2) == [Val(u), Undef];
    assert Visited([Val(u), Undef]) == [Val(u), Undef];
    var s3 := RemoveImageInput(s2, 2);
    assert !ValidImage(isUrl, s3.form.images[1]);
  }

  /** The same four clicks with the padded update leave only strings in the
      form, and the preview is built. */
  lemma PaddedPreviewWitness(u: string)
    ensures var s1 := AddImageInput(AddImageInput(InitialState));
      var s2 := UpdateImageInputPadded(UpdateImageInputPadded(s1, 2, "C"), 0, u);
      && s2.imageInputs == [u, "", "C"]
      && s2.form.images == [Val(u), Val(""), Val("C")]
      && GetPreviewData(s2.form).Some?
  {
    ThreeInputs();
    var s1 := AdminState(None, ["", "", ""], DefaultForm);
    var a := UpdateImageInputPadded(s1, 2, "C");
    assert a.form.images == [Val(""), Val(""), Val("C")];
    var s2 := UpdateImageInputPadded(a, 0, u);
    assert s2.form.images == [Val(u), Val(""), Val("C")];
    AlignedAgrees(s2);
  }
}

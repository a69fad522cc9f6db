/**
  The admin page editor: slug generation from a title, and the editor state
  (create or edit mode plus the form) with the handlers that change it and
  the call a submit dispatches.
 */
module PageManager {
  import opened Wrappers
  import opened JsString
  import opened Schema

  // ---------------------------------------------------------------------------
  // generateSlug
  // ---------------------------------------------------------------------------

  predicate IsAlnum(c: char) { 'a' <= c <= 'z' || '0' <= c <= '9' }

  /** A character the class `[^a-z0-9\s-]` does not match. */
  predicate Kept(c: char) { IsAlnum(c) || IsSpace(c) || c == '-' }

  /** A character a generated slug may contain. */
  predicate IsSlugChar(c: char) { IsAlnum(c) || c == '-' }

  predicate IsSlug(s: string) {
    forall i :: 0 <= i < |s| ==> IsSlugChar(s[i])
  }

  /** `.replace(/[^a-z0-9\s-]/g, "")`: the kept characters, in order. */
  function StripDisallowed(s: string): (r: string)
    ensures |r| <= |s|
    ensures forall i :: 0 <= i < |r| ==> Kept(r[i])
    ensures (forall i :: 0 <= i < |s| ==> Kept(s[i])) ==> r == s
  {
    if s == [] then []
    else if Kept(s[0]) then [s[0]] + StripDisallowed(s[1..])
    else StripDisallowed(s[1..])
  }

  /** Stripping works character by character: a kept character stays, any
      other is dropped. */
  lemma StripChar(c: char)
    ensures StripDisallowed([c]) == (if Kept(c) then [c] else [])
  {
    assert [c][1..] == [];
  }

  /** Stripping a concatenation strips each part: with `StripChar` this
      determines the result, the kept characters in their order. */
  lemma {:induction false} StripAppend(a: string, b: string)
    ensures StripDisallowed(a + b) == StripDisallowed(a) + StripDisallowed(b)
  {
    if a != [] {
      assert (a + b)[0] == a[0];
      assert (a + b)[1..] == a[1..] + b;
      StripAppend(a[1..], b);
      if Kept(a[0]) {
        calc {
          StripDisallowed(a + b);
          [a[0]] + StripDisallowed(a[1..] + b);
          [a[0]] + (StripDisallowed(a[1..]) + StripDisallowed(b));
          ([a[0]] + StripDisallowed(a[1..])) + StripDisallowed(b);
        }
      }
    } else {
      assert a + b == b;
    }
  }

  /** No character of `s` is white space. */
  predicate SpaceFree(s: string) {
    forall i :: 0 <= i < |s| ==> !IsSpace(s[i])
  }

  /** Every character of `r` other than `-` comes from `s`. */
  predicate HyphensAdded(r: string, s: string) {
    forall i :: 0 <= i < |r| && r[i] != '-' ==> r[i] in s
  }

  /** `.replace(/[class]+/g, "-")` for a character class `inClass` that does
      not contain `-`: every maximal run of class characters becomes a single
      `-`. `inRun` says that the character just before `s` was in the class
      and its run has already been replaced. */
  function ReplaceRuns(s: string, inClass: char -> bool, inRun: bool): (r: string)
    requires !inClass('-')
    ensures |r| <= |s|
    ensures forall i :: 0 <= i < |r| ==> !inClass(r[i])
  {
    if s == [] then []
    else if inClass(s[0]) then
      if inRun then ReplaceRuns(s[1..], inClass, true) else "-" + ReplaceRuns(s[1..], inClass, true)
    else [s[0]] + ReplaceRuns(s[1..], inClass, false)
  }

  /** `.replace(/\s+/g, "-")`: every maximal run of white space becomes a
      single `-`. */
  function CollapseRuns(s: string, inRun: bool): (r: string)
    ensures |r| <= |s|
    ensures SpaceFree(r)
    ensures HyphensAdded(r, s)
    ensures SpaceFree(s) ==> r == s
  {
    ReplaceKeepsChars(s, IsSpace, inRun);
    if SpaceFree(s) then NoRunUnchanged(s, IsSpace, inRun); ReplaceRuns(s, IsSpace, inRun)
    else ReplaceRuns(s, IsSpace, inRun)
  }

  /** Replacing runs only adds `-`: every other character of the result
      comes from the input. */
  lemma {:induction false} ReplaceKeepsChars(s: string, inClass: char -> bool, inRun: bool)
    requires !inClass('-')
    ensures HyphensAdded(ReplaceRuns(s, inClass, inRun), s)
  {
    if s != [] {
      ReplaceKeepsChars(s[1..], inClass, inClass(s[0]));
      var r, t := ReplaceRuns(s, inClass, inRun), ReplaceRuns(s[1..], inClass, inClass(s[0]));
      assert r == RunHead(s[0], inClass, inRun) + t;
      forall i | 0 <= i < |r| && r[i] != '-' ensures r[i] in s {
        var h := |RunHead(s[0], inClass, inRun)|;
        if i < h {
          assert r[i] == s[0];
        } else {
          assert r[i] == t[i - h];
          var j :| 0 <= j < |s[1..]| && s[1..][j] == t[i - h];
          assert s[j + 1] == r[i];
        }
      }
    }
  }

  /** Text with no class character is left as it is. */
  lemma {:induction false} NoRunUnchanged(s: string, inClass: char -> bool, inRun: bool)
    requires !inClass('-')
    requires forall i :: 0 <= i < |s| ==> !inClass(s[i])
    ensures ReplaceRuns(s, inClass, inRun) == s
  {
    if s != [] {
      NoRunUnchanged(s[1..], inClass, false);
    }
  }

  /** Whether the run state after `s` is inside a run of the class. */
  function EndsInRun(s: string, inClass: char -> bool, inRun: bool): bool {
    if s == [] then inRun else inClass(s[|s| - 1])
  }

  /** What the first character of a non-empty text is replaced with. */
  function RunHead(c: char, inClass: char -> bool, inRun: bool): string {
    if !inClass(c) then [c] else if inRun then "" else "-"
  }

  lemma ReplaceCons(c: char, t: string, inClass: char -> bool, inRun: bool)
    requires !inClass('-')
    ensures ReplaceRuns([c] + t, inClass, inRun)
      == RunHead(c, inClass, inRun) + ReplaceRuns(t, inClass, inClass(c))
  {
    assert ([c] + t)[0] == c && ([c] + t)[1..] == t;
  }

  lemma EndsInRunTail(c: char, t: string, inClass: char -> bool, inRun: bool)
    ensures EndsInRun([c] + t, inClass, inRun) == EndsInRun(t, inClass, inClass(c))
  {
    if t != [] {
      assert ([c] + t)[|t|] == t[|t| - 1];
    }
  }

  /** Replacing in a concatenation replaces in the first part, then in the
      second part starting from the run state the first part ends in. */
  lemma {:induction false} ReplaceAppend(a: string, b: string, inClass: char -> bool, inRun: bool)
    requires !inClass('-')
    ensures ReplaceRuns(a + b, inClass, inRun)
      == ReplaceRuns(a, inClass, inRun) + ReplaceRuns(b, inClass, EndsInRun(a, inClass, inRun))
  {
    if a == [] {
      assert a + b == b;
    } else {
      var c, t := a[0], a[1..];
      assert a + b == [c] + (t + b) && a == [c] + t;
      var h := RunHead(c, inClass, inRun);
      calc {
        ReplaceRuns(a + b, inClass, inRun);
        { ReplaceCons(c, t + b, inClass, inRun); }
        h + ReplaceRuns(t + b, inClass, inClass(c));
        { ReplaceAppend(t, b, inClass, inClass(c)); }
        h + (ReplaceRuns(t, inClass, inClass(c)) + ReplaceRuns(b, inClass, EndsInRun(t, inClass, inClass(c))));
        { EndsInRunTail(c, t, inClass, inRun); ReplaceCons(c, t, inClass, inRun); }
        ReplaceRuns(a, inClass, inRun) + ReplaceRuns(b, inClass, EndsInRun(a, inClass, inRun));
      }
    }
  }

  /** A non-empty run of class characters becomes one `-`, or nothing when it
      continues a run already replaced. */
  lemma {:induction false} WholeRun(w: string, inClass: char -> bool, inRun: bool)
    requires !inClass('-')
    requires w != [] && forall i :: 0 <= i < |w| ==> inClass(w[i])
    ensures ReplaceRuns(w, inClass, inRun) == (if inRun then "" else "-")
  {
    if |w| > 1 {
      WholeRun(w[1..], inClass, true);
    }
  }

  /** A maximal run `w` of class characters between `a` and `b` becomes
      exactly one `-`, and `a` and `b` are replaced on their own. */
  lemma ReplaceSplit(a: string, w: string, b: string, inClass: char -> bool)
    requires !inClass('-')
    requires a == [] || !inClass(a[|a| - 1])
    requires w != [] && forall i :: 0 <= i < |w| ==> inClass(w[i])
    requires b == [] || !inClass(b[0])
    ensures ReplaceRuns(a + w + b, inClass, false)
      == ReplaceRuns(a, inClass, false) + "-" + ReplaceRuns(b, inClass, false)
  {
    RunThenRest(w, b, inClass);
    RestAfterText(a, w + b, inClass);
    assert a + w + b == a + (w + b);
  }

  /** Text not ending in a class character, then more text: the two parts
      are replaced on their own. */
  lemma RestAfterText(a: string, b: string, inClass: char -> bool)
    requires !inClass('-')
    requires a == [] || !inClass(a[|a| - 1])
    ensures ReplaceRuns(a + b, inClass, false)
      == ReplaceRuns(a, inClass, false) + ReplaceRuns(b, inClass, false)
  {
    ReplaceAppend(a, b, inClass, false);
  }

  /** A whole run, then text not starting with a class character: one `-`,
      then the text replaced on its own. */
  lemma RunThenRest(w: string, b: string, inClass: char -> bool)
    requires !inClass('-')
    requires w != [] && forall i :: 0 <= i < |w| ==> inClass(w[i])
    requires b == [] || !inClass(b[0])
    ensures ReplaceRuns(w + b, inClass, false) == "-" + ReplaceRuns(b, inClass, false)
  {
    ReplaceAppend(w, b, inClass, false);
    assert EndsInRun(w, inClass, false);
    WholeRun(w, inClass, false);
    AfterRun(b, inClass);
  }

  /** Text that does not start with a class character is replaced the same
      whether or not a run precedes it. */
  lemma AfterRun(b: string, inClass: char -> bool)
    requires !inClass('-')
    requires b == [] || !inClass(b[0])
    ensures ReplaceRuns(b, inClass, true) == ReplaceRuns(b, inClass, false)
  {
  }

  /** A maximal white-space run `w` between `a` and `b` becomes exactly one
      `-`, and `a` and `b` collapse on their own. */
  lemma CollapseSplit(a: string, w: string, b: string)
    requires a == [] || !IsSpace(a[|a| - 1])
    requires w != [] && IsBlank(w)
    requires b == [] || !IsSpace(b[0])
    ensures CollapseRuns(a + w + b, false)
      == CollapseRuns(a, false) + "-" + CollapseRuns(b, false)
  {
    ReplaceSplit(a, w, b, IsSpace);
  }

  /** Two slug words separated by white space become the words joined by a
      single `-`: `"web  design"` gives `"web-design"`. */
  lemma SlugJoinsWords(a: string, w: string, b: string)
    requires a != [] && IsSlug(a) && b != [] && IsSlug(b)
    requires w != [] && IsBlank(w)
    ensures GenerateSlug(a + w + b) == a + "-" + b
  {
    WordsUntouched(a, w, b);
    CollapseSplit(a, w, b);
    WordCollapse(a);
    WordCollapse(b);
    TrimUnpadded(a + "-" + b);
  }

  /** Text made of slug characters and white space only. */
  predicate Plain(s: string) {
    forall i :: 0 <= i < |s| ==> IsSlugChar(s[i]) || IsSpace(s[i])
  }

  lemma PlainAppend(a: string, b: string)
    requires Plain(a) && Plain(b)
    ensures Plain(a + b)
  {
    forall i | 0 <= i < |a + b| ensures IsSlugChar((a + b)[i]) || IsSpace((a + b)[i]) {
      if i < |a| {
        assert (a + b)[i] == a[i];
      } else {
        assert (a + b)[i] == b[i - |a|];
      }
    }
  }

  /** Lower-casing and stripping leave slug characters and white space alone. */
  lemma PlainUntouched(t: string)
    requires Plain(t)
    ensures StripDisallowed(ToLower(t)) == t
  {
    assert ToLower(t) == t;
  }

  /** Lower-casing and stripping leave slug words and white space alone. */
  lemma WordsUntouched(a: string, w: string, b: string)
    requires IsSlug(a) && IsBlank(w) && IsSlug(b)
    ensures StripDisallowed(ToLower(a + w + b)) == a + w + b
  {
    PlainAppend(a, w);
    PlainAppend(a + w, b);
    PlainUntouched(a + w + b);
  }

  lemma WordCollapse(a: string)
    requires IsSlug(a)
    ensures CollapseRuns(a, false) == a
  {
    assert SpaceFree(a);
  }

  /** `generateSlug`: lower-case, drop what is not `[a-z0-9]`, white space or
      `-`, replace each white-space run with `-`, then trim (which finds no
      white space left to remove). */
  function GenerateSlug(title: string): (r: string)
    ensures IsSlug(r)
    ensures |r| <= |title|
  {
    var collapsed := CollapseRuns(StripDisallowed(ToLower(title)), false);
    assert IsSlug(collapsed) by {
      forall i | 0 <= i < |collapsed| ensures IsSlugChar(collapsed[i]) {
        if collapsed[i] != '-' {
          var stripped := StripDisallowed(ToLower(title));
          var j :| 0 <= j < |stripped| && stripped[j] == collapsed[i];
        }
      }
    }
    TrimUnpadded(collapsed);
    Trim(collapsed)
  }

  /** The letters and digits of `s`, in order. */
  function AlnumOf(s: string): (r: string)
    ensures forall i :: 0 <= i < |r| ==> IsAlnum(r[i])
  {
    if s == [] then [] else (if IsAlnum(s[0]) then [s[0]] else []) + AlnumOf(s[1..])
  }

  lemma AlnumOfCons(c: char, s: string)
    ensures AlnumOf([c] + s) == (if IsAlnum(c) then [c] else []) + AlnumOf(s)
  {
    assert ([c] + s)[1..] == s;
  }

  lemma {:induction false} StripKeepsAlnum(s: string)
    ensures AlnumOf(StripDisallowed(s)) == AlnumOf(s)
  {
    if s != [] {
      StripKeepsAlnum(s[1..]);
      if Kept(s[0]) {
        AlnumOfCons(s[0], StripDisallowed(s[1..]));
      }
    }
  }

  lemma {:induction false} CollapseKeepsAlnum(s: string, inRun: bool)
    ensures AlnumOf(CollapseRuns(s, inRun)) == AlnumOf(s)
  {
    if s != [] {
      if IsSpace(s[0]) {
        CollapseKeepsAlnum(s[1..], true);
        if !inRun {
          AlnumOfCons('-', CollapseRuns(s[1..], true));
        }
      } else {
        CollapseKeepsAlnum(s[1..], false);
        AlnumOfCons(s[0], CollapseRuns(s[1..], false));
      }
    }
  }

  /** No letter or digit is lost or reordered: the slug's letters and digits
      are exactly those of the lower-cased title. */
  lemma SlugKeepsAlnum(title: string)
    ensures AlnumOf(GenerateSlug(title)) == AlnumOf(ToLower(title))
  {
    var stripped := StripDisallowed(ToLower(title));
    StripKeepsAlnum(ToLower(title));
    CollapseKeepsAlnum(stripped, false);
    TrimUnpadded(CollapseRuns(stripped, false));
  }

  /** A string already made of slug characters is its own slug. */
  lemma SlugFixedPoint(s: string)
    requires IsSlug(s)
    ensures GenerateSlug(s) == s
  {
    assert ToLower(s) == s;
    assert StripDisallowed(s) == s;
    assert CollapseRuns(s, false) == s;
    TrimUnpadded(s);
  }

  /** A string is its own slug exactly when it consists of slug characters. */
  lemma SlugFixedPointIff(s: string)
    ensures GenerateSlug(s) == s <==> IsSlug(s)
  {
    if IsSlug(s) {
      SlugFixedPoint(s);
    }
  }

  /** Generating a slug from a slug changes nothing. */
  lemma SlugIdempotent(title: string)
    ensures GenerateSlug(GenerateSlug(title)) == GenerateSlug(title)
  {
    SlugFixedPoint(GenerateSlug(title));
  }

  /** The slug of plain text is its collapsed form, which the final `trim`
      leaves alone. */
  lemma SlugOfPlain(t: string, c: string)
    requires Plain(t) && CollapseRuns(t, false) == c
    ensures GenerateSlug(t) == c
  {
    PlainUntouched(t);
    assert c == [] || (!IsSpace(c[0]) && !IsSpace(c[|c| - 1]));
    TrimUnpadded(c);
  }

  /** Slug words and white-space runs are plain text. */
  lemma PlainParts(a: string, w: string)
    requires IsSlug(a) && IsBlank(w)
    ensures Plain(a) && Plain(w)
  {
  }

  /** Hyphens already in the title survive next to the replaced runs: two
      slug words around a `-` with white space on both sides give three
      hyphens, as `"a - b"` gives `"a---b"`. */
  lemma SlugKeepsHyphens(a: string, w1: string, w2: string, b: string)
    requires a != [] && IsSlug(a) && b != [] && IsSlug(b)
    requires w1 != [] && IsBlank(w1) && w2 != [] && IsBlank(w2)
    ensures GenerateSlug(a + w1 + "-" + w2 + b) == a + "---" + b
  {
    var t := a + w1 + "-" + w2 + b;
    PlainParts(a, w1);
    PlainParts(b, w2);
    PlainParts("-", []);
    PlainAppend(a, w1);
    PlainAppend(a + w1, "-");
    PlainAppend(a + w1 + "-", w2);
    PlainAppend(a + w1 + "-" + w2, b);
    HyphenBetweenRuns(a, w1, w2, b);
    SlugOfPlain(t, a + "---" + b);
  }

  lemma HyphenBetweenRuns(a: string, w1: string, w2: string, b: string)
    requires a != [] && IsSlug(a) && b != [] && IsSlug(b)
    requires w1 != [] && IsBlank(w1) && w2 != [] && IsBlank(w2)
    ensures CollapseRuns(a + w1 + "-" + w2 + b, false) == a + "---" + b
  {
    var h := "-";
    var rest := h + w2 + b;
    assert !IsSpace(a[|a| - 1]) && rest[0] == '-';
    WordCollapse(a);
    WordCollapse(h);
    WordCollapse(b);
    calc {
      CollapseRuns(a + w1 + "-" + w2 + b, false);
      { assert a + w1 + "-" + w2 + b == a + w1 + rest; }
      CollapseRuns(a + w1 + rest, false);
      { CollapseSplit(a, w1, rest); }
      a + h + CollapseRuns(rest, false);
      { CollapseSplit(h, w2, b); }
      a + h + (h + h + b);
      { assert h + h + h == "---"; }
      a + "---" + b;
    }
  }

  /** The final `trim` runs after the runs are replaced, so white space at
      the end of the title becomes a hyphen instead of being trimmed: `"Hi "`
      gives `"hi-"`. */
  lemma SlugKeepsTrailingHyphen(a: string, w: string)
    requires a != [] && IsSlug(a)
    requires w != [] && IsBlank(w)
    ensures GenerateSlug(a + w) == a + "-"
  {
    PlainParts(a, w);
    PlainAppend(a, w);
    assert a + w == a + w + [];
    CollapseSplit(a, w, []);
    WordCollapse(a);
    WordCollapse([]);
    SlugOfPlain(a + w, a + "-");
  }

  /** Likewise white space at the start of the title becomes a leading
      hyphen. */
  lemma SlugKeepsLeadingHyphen(a: string, w: string)
    requires a != [] && IsSlug(a)
    requires w != [] && IsBlank(w)
    ensures GenerateSlug(w + a) == "-" + a
  {
    PlainParts(a, w);
    PlainAppend(w, a);
    assert w + a == [] + w + a;
    CollapseSplit([], w, a);
    WordCollapse(a);
    WordCollapse([]);
    SlugOfPlain(w + a, "-" + a);
  }

  // ---------------------------------------------------------------------------
  // The editor
  // ---------------------------------------------------------------------------

  datatype PageForm = PageForm(title: string, slug: string, content: string, published: bool)

  /** The form's initial and reset values. */
  const BlankForm := PageForm("", "", "", true)

  /** `isCreating` shows the form; `editing` is the page being edited, if any. */
  datatype PageEditor = PageEditor(isCreating: bool, editing: Option<Page>, form: PageForm)

  const InitialEditor := PageEditor(false, None, BlankForm)

  /** The request a submit sends. */
  datatype PageCall =
    | CreatePageCall(data: PageForm)              // POST /api/pages
    | UpdatePageCall(id: string, data: PageForm)  // PUT  /api/pages/:id

  /** `resetForm`, also run after a successful create or update. */
  function ResetForm(e: PageEditor): PageEditor {
    InitialEditor
  }

  /** `handleEdit`: open the form on a copy of the page's editable fields. */
  function HandleEdit(e: PageEditor, page: Page): (r: PageEditor)
    ensures r.isCreating && r.editing == Some(page)
    ensures r.form.title == page.title && r.form.slug == page.slug
    ensures r.form.content == page.content && r.form.published == page.published
  {
    PageEditor(true, Some(page), PageForm(page.title, page.slug, page.content, page.published))
  }

  /** `handleTitleChange`: the slug follows the title. */
  function HandleTitleChange(e: PageEditor, title: string): (r: PageEditor)
    ensures r.form.title == title && r.form.slug == GenerateSlug(title)
    ensures IsSlug(r.form.slug)
    ensures r.form.content == e.form.content && r.form.published == e.form.published
    ensures r.isCreating == e.isCreating && r.editing == e.editing
  {
    e.(form := e.form.(title := title, slug := GenerateSlug(title)))
  }

  /** The slug input's own `onChange`: a hand-edited slug. */
  function SetSlug(e: PageEditor, slug: string): (r: PageEditor)
    ensures r.form.slug == slug && r.form.title == e.form.title
  {
    e.(form := e.form.(slug := slug))
  }

  /** `handleSubmit`: an update of the page being edited, otherwise a create;
      either way the form is sent as it stands. */
  function HandleSubmit(e: PageEditor): (r: PageCall)
    ensures r.UpdatePageCall? <==> e.editing.Some?
    ensures r.UpdatePageCall? ==> r.id == e.editing.value.id
    ensures r.data == e.form
  {
    match e.editing
    case Some(page) => UpdatePageCall(page.id, e.form)
    case None => CreatePageCall(e.form)
  }

  /** The update a submitted form asks the server for: every field is sent. */
  function FormPatch(form: PageForm): (patch: PagePatch)
    ensures patch.title == Some(form.title) && patch.slug == Some(form.slug)
    ensures patch.content == Some(form.content) && patch.published == Some(form.published)
  {
    PagePatch(Some(form.title), Some(form.slug), Some(form.content), Some(form.published))
  }

  /** After a reset, typing a title and submitting creates a published page
      with the generated slug and empty content, whatever was open before. */
  lemma ResetThenCreate(e: PageEditor, title: string)
    ensures HandleSubmit(HandleTitleChange(ResetForm(e), title))
      == CreatePageCall(PageForm(title, GenerateSlug(title), "", true))
  {
  }

  /** Opening a page and submitting it untouched updates that page to itself:
      only its `updatedAt` stamp moves. */
  lemma EditUnchangedKeepsPage(e: PageEditor, page: Page, now: int)
    ensures var call := HandleSubmit(HandleEdit(e, page));
      && call == UpdatePageCall(page.id, call.data)
      && ApplyPagePatch(page, FormPatch(call.data), now) == page.(updatedAt := now)
  {
  }

  /** A title change overrides a hand-edited slug. */
  lemma TitleChangeOverridesSlug(e: PageEditor, slug: string, title: string)
    ensures HandleTitleChange(SetSlug(e, slug), title) == HandleTitleChange(e, title)
  {
  }
}

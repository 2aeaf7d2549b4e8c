/** The course editor of client/src/pages/CreateCourse.tsx and
    client/src/pages/EditCourse.tsx: the editable module list (add, remove
    with renumbering, per-field change, renumbering on submit, sorting on
    load) and the thumbnail picker (validation, removal, the path sent on
    submit). Both pages share these operations. */
module ModuleEditor {
  import opened Common
  import opened Seqs

  /** A module as the form holds it; `id` is present only for modules loaded
      from a saved course. */
  datatype DraftModule = DraftModule(
    id: Option<Id>,
    title: string,
    description: string,
    content: string,
    videoUrl: string,
    duration: int,
    order: int)

  /** One field edit: the field name together with the new value. */
  datatype Edit =
    | SetTitle(text: string)
    | SetDescription(text: string)
    | SetContent(text: string)
    | SetVideoUrl(text: string)
    | SetDuration(minutes: int)

  /** A new, empty module at position `order`. */
  function BlankModule(order: int): (m: DraftModule)
    ensures m.id.None? && m.title == "" && m.description == "" && m.content == "" && m.videoUrl == ""
    ensures m.duration == 0 && m.order == order
  {
    DraftModule(None, "", "", "", "", 0, order)
  }

  /** The module list a new course starts with. */
  function InitialModules(): (ms: seq<DraftModule>)
    ensures |ms| == 1 && ms[0] == BlankModule(0) && Numbered(ms)
  {
    [BlankModule(0)]
  }

  /** Every module's order is its position. */
  predicate Numbered(ms: seq<DraftModule>) {
    forall i :: 0 <= i < |ms| ==> ms[i].order == i
  }

  /** The same modules in the same positions, ignoring their orders. */
  predicate SameButOrder(a: seq<DraftModule>, b: seq<DraftModule>) {
    |a| == |b| && forall i :: 0 <= i < |a| ==> a[i].(order := 0) == b[i].(order := 0)
  }

  /** The order renumbering applied after a removal and on submit. */
  function Renumber(ms: seq<DraftModule>): (r: seq<DraftModule>)
    ensures Numbered(r)
    ensures SameButOrder(r, ms)
  {
    seq(|ms|, i requires 0 <= i < |ms| => ms[i].(order := i))
  }

  /** Renumbering is the identity exactly on numbered lists, so it is idempotent. */
  lemma RenumberFixpoint(ms: seq<DraftModule>)
    ensures Renumber(ms) == ms <==> Numbered(ms)
    ensures Renumber(Renumber(ms)) == Renumber(ms)
  {
    if Numbered(ms) {
      assert forall i :: 0 <= i < |ms| ==> Renumber(ms)[i] == ms[i];
    }
  }

  /** addModule: one blank module appended, with order the old length. */
  function AddModule(ms: seq<DraftModule>): (r: seq<DraftModule>)
    ensures |r| == |ms| + 1 && r[..|ms|] == ms
    ensures r[|ms|] == BlankModule(|ms|)
    ensures Numbered(ms) ==> Numbered(r)
  {
    ms + [BlankModule(|ms|)]
  }

  /** The list without position `index` (unchanged when there is none). */
  function Without(ms: seq<DraftModule>, index: int): (r: seq<DraftModule>)
    ensures 0 <= index < |ms| ==> |r| == |ms| - 1
    ensures !(0 <= index < |ms|) ==> r == ms
    ensures 0 <= index < |ms| ==> forall i :: 0 <= i < |r| ==> r[i] == if i < index then ms[i] else ms[i + 1]
  {
    if 0 <= index < |ms| then ms[..index] + ms[index + 1..] else ms
  }

  /** removeModule: nothing happens to a one-module list; otherwise position
      `index` goes and the rest are renumbered 0..n-2 in their old order. */
  function RemoveModule(ms: seq<DraftModule>, index: int): (r: seq<DraftModule>)
    ensures |ms| <= 1 ==> r == ms
    ensures |ms| > 1 && 0 <= index < |ms| ==> |r| == |ms| - 1
    ensures |ms| > 1 ==> Numbered(r) && SameButOrder(r, Without(ms, index))
    ensures |ms| >= 1 ==> |r| >= 1
  {
    if |ms| > 1 then Renumber(Without(ms, index)) else ms
  }

  /** Removing the module just added gives back the numbered list. */
  lemma RemoveAfterAdd(ms: seq<DraftModule>)
    requires Numbered(ms) && |ms| >= 1
    ensures RemoveModule(AddModule(ms), |ms|) == ms
  {
    var added := AddModule(ms);
    assert Without(added, |ms|) == ms;
    RenumberFixpoint(ms);
  }

  /** A module with one field replaced. */
  function SetField(m: DraftModule, e: Edit): DraftModule {
    match e
    case SetTitle(t) => m.(title := t)
    case SetDescription(t) => m.(description := t)
    case SetContent(t) => m.(content := t)
    case SetVideoUrl(t) => m.(videoUrl := t)
    case SetDuration(d) => m.(duration := d)
  }

  /** The edited field holds the new value, every other field keeps its old
      one, and repeating the edit changes nothing more. */
  lemma SetFieldOnly(m: DraftModule, e: Edit)
    ensures var m' := SetField(m, e);
      && m'.id == m.id && m'.order == m.order
      && (if e.SetTitle? then m'.title == e.text else m'.title == m.title)
      && (if e.SetDescription? then m'.description == e.text else m'.description == m.description)
      && (if e.SetContent? then m'.content == e.text else m'.content == m.content)
      && (if e.SetVideoUrl? then m'.videoUrl == e.text else m'.videoUrl == m.videoUrl)
      && (if e.SetDuration? then m'.duration == e.minutes else m'.duration == m.duration)
      && SetField(m', e) == m'
  {
  }

  /** handleModuleChange: position `index` gets the edit; the others, and the
      list's length, stay as they were. An index outside the list changes nothing. */
  function ChangeModule(ms: seq<DraftModule>, index: int, e: Edit): (r: seq<DraftModule>)
    ensures |r| == |ms|
    ensures forall i :: 0 <= i < |ms| && i != index ==> r[i] == ms[i]
    ensures 0 <= index < |ms| ==> r[index] == SetField(ms[index], e)
    ensures Numbered(ms) ==> Numbered(r)
  {
    seq(|ms|, i requires 0 <= i < |ms| => if i == index then SetField(ms[i], e) else ms[i])
  }

  /** The modules sent on submit: positions become orders, whatever the
      loaded or edited orders were. */
  function SubmittedModules(ms: seq<DraftModule>): (r: seq<DraftModule>)
    ensures Numbered(r) && SameButOrder(r, ms)
  {
    Renumber(ms)
  }

  function OrderKey(m: DraftModule): int {
    m.order
  }

  /** The edit page's load: the saved modules in ascending `order`. */
  function LoadedModules(saved: seq<DraftModule>): (r: seq<DraftModule>)
    ensures SortedBy(r, OrderKey)
    ensures multiset(r) == multiset(saved)
  {
    SortBy(saved, OrderKey)
  }

  /** Loading then submitting unchanged sends as many modules as were
      saved, in ascending saved order, numbered from 0. */
  lemma LoadThenSubmit(saved: seq<DraftModule>)
    ensures var sent := SubmittedModules(LoadedModules(saved));
      && |sent| == |saved| && Numbered(sent)
      && SameButOrder(sent, LoadedModules(saved))
      && SortedBy(LoadedModules(saved), OrderKey)
  {
    assert |LoadedModules(saved)| == |saved| by {
      assert |multiset(LoadedModules(saved))| == |multiset(saved)|;
    }
  }

  // Thumbnail

  /** The largest accepted thumbnail: 5 MB. */
  const MAX_THUMBNAIL_BYTES: int := 5 * 1024 * 1024

  datatype PickedFile = PickedFile(mimeType: string, size: int)

  /** The file input's state: the chosen file, its preview, and the stored
      thumbnail path of the course. */
  datatype Thumbnail = Thumbnail(file: Option<PickedFile>, preview: string, path: string)

  /** Why a picked file was refused. */
  datatype Refusal = InvalidType | TooLarge

  predicate StartsWith(s: string, prefix: string) {
    |prefix| <= |s| && s[..|prefix|] == prefix
  }

  /** handleThumbnailChange: the type is checked first, then the size; a
      refused file leaves the state as it was. Nothing picked changes
      nothing. The preview is filled in later by a file reader. */
  function PickThumbnail(t: Thumbnail, picked: Option<PickedFile>): (r: (Thumbnail, Option<Refusal>))
    ensures picked.None? ==> r == (t, None)
    ensures picked.Some? && !StartsWith(picked.value.mimeType, "image/") ==> r == (t, Some(InvalidType))
    ensures picked.Some? && StartsWith(picked.value.mimeType, "image/") && picked.value.size > MAX_THUMBNAIL_BYTES
      ==> r == (t, Some(TooLarge))
    ensures r.0.file == t.file || r.0.file == picked
    ensures r.1.None? && picked.Some? <==>
      picked.Some? && StartsWith(picked.value.mimeType, "image/") && picked.value.size <= MAX_THUMBNAIL_BYTES
    ensures r.1.None? && picked.Some? ==> r.0 == t.(file := picked)
  {
    match picked
    case None => (t, None)
    case Some(f) =>
      if !StartsWith(f.mimeType, "image/") then (t, Some(InvalidType))
      else if f.size > MAX_THUMBNAIL_BYTES then (t, Some(TooLarge))
      else (t.(file := picked), None)
  }

  /** removeThumbnail: no file, no preview, no path. */
  function RemoveThumbnail(t: Thumbnail): (r: Thumbnail)
    ensures r.file.None? && r.preview == "" && r.path == ""
  {
    Thumbnail(None, "", "")
  }

  /** The thumbnail path a submit sends. With a new file it is the path the
      upload returns (a parameter here). Without one, course creation sends ""
      and course editing sends the stored path. */
  function SubmittedThumbnail(t: Thumbnail, editing: bool, uploadedPath: string): (path: string)
    ensures t.file.Some? ==> path == uploadedPath
    ensures t.file.None? && editing ==> path == t.path
    ensures t.file.None? && !editing ==> path == ""
  {
    if t.file.Some? then uploadedPath else if editing then t.path else ""
  }

  /** After removing the thumbnail either page submits an empty path, and a
      refused pick does not change what an edit submits. */
  lemma RemovedThumbnailIsNotSent(t: Thumbnail, editing: bool, uploadedPath: string, picked: Option<PickedFile>)
    ensures SubmittedThumbnail(RemoveThumbnail(t), editing, uploadedPath) == ""
    ensures PickThumbnail(t, picked).1.Some? ==>
      SubmittedThumbnail(PickThumbnail(t, picked).0, editing, uploadedPath) == SubmittedThumbnail(t, editing, uploadedPath)
  {
  }
}

/**
The `/api/hero` routes. The collection is a sequence of documents in natural
order; the image URL that the Cloudinary storage assigns to an accepted upload,
the fresh id of a new document and a database fault are parameters.
*/
module HeroRoutes {
  import opened Wrappers
  import opened Strings
  import opened Http
  import opened Documents
  import opened FileFilter
  import opened Cloudinary
  import opened HeroModel

  type HeroStore = Collection<HeroSlide>

  /** The multipart form fields the POST and PUT handlers read. */
  datatype HeroBody = HeroBody(
    heading: Option<string>,
    subHeading: Option<string>,
    description: Option<string>,
    productCode: Option<string>,
    kind: Option<string>,
    productId: Option<string>)

  /** A product id worth storing: set, not empty, and not the text a form writes for a missing value. */
  predicate UsableProductId(p: Option<string>) {
    Truthy(p) && p.value != "null" && p.value != "undefined"
  }

  /** A stored slide: required fields set, and a product link only when it is a usable id. */
  predicate SlideValid(s: HeroSlide) {
    WellFormed(s) && (s.productId.Some? ==> UsableProductId(s.productId))
  }

  /** What every handler keeps true of the collection. */
  predicate StoreValid(st: HeroStore) {
    UniqueIds(st) && forall i :: 0 <= i < |st| ==> SlideValid(st[i].value)
  }

  // ---------------------------------------------------------------- GET /

  /** `Hero.find({ isActive: true })`, in collection order. */
  function ActiveSlides(st: HeroStore): (r: seq<HeroSlide>)
    ensures |r| <= |st|
    ensures forall s :: s in r ==> s.isActive
    ensures forall s :: s in r ==> exists i :: 0 <= i < |st| && st[i].value == s
    ensures forall i :: 0 <= i < |st| && st[i].value.isActive ==> st[i].value in r
  {
    if |st| == 0 then []
    else
      var rest := ActiveSlides(st[1..]);
      assert forall i :: 1 <= i < |st| ==> st[i] == st[1..][i - 1];
      if st[0].value.isActive then [st[0].value] + rest else rest
  }

  lemma {:induction false} ActiveSlidesAppend(a: HeroStore, b: HeroStore)
    ensures ActiveSlides(a + b) == ActiveSlides(a) + ActiveSlides(b)
    decreases |a|
  {
    if |a| > 0 {
      assert (a + b)[1..] == a[1..] + b;
      ActiveSlidesAppend(a[1..], b);
    } else {
      assert a + b == b;
    }
  }

  function HeroGet(st: HeroStore, fault: Option<string>): (r: Reply<seq<HeroSlide>>)
    ensures fault.Some? <==> r.Fail?
    ensures r.Fail? ==> r == Fail(500, Message(fault.value))
    ensures r.Ok? ==> r.status == 200 && r.value == ActiveSlides(st)
    ensures r.Ok? ==> forall s :: s in r.value ==> s.isActive
  {
    match fault
    case Some(m) => Fail(500, Message(m))
    case None => Ok(200, ActiveSlides(st))
  }

  // ---------------------------------------------------------------- POST /

  /** The form value for `type`, falling back to "product" when it is missing or empty. */
  function PostedType(body: HeroBody): (t: string)
    ensures t != ""
    ensures Truthy(body.kind) ==> t == body.kind.value
    ensures !Truthy(body.kind) ==> t == ProductName
  {
    Or(body.kind, Some(ProductName)).value
  }

  function PostDraft(body: HeroBody, image: string): HeroDraft {
    HeroDraft(Some(image), body.heading, body.subHeading, body.description, body.productCode,
              None, Some(PostedType(body)),
              if UsableProductId(body.productId) then body.productId else None)
  }

  /**
  `POST /`: a refused upload never reaches the handler (the error middleware
  answers 500 without a message); without a file the image is '' and the
  `required` validator refuses it; otherwise the slide is saved, active by default.
  */
  function HeroPost(st: HeroStore, body: HeroBody, upload: Upload, storedUrl: string, newId: string)
    : (out: (Reply<HeroSlide>, HeroStore))
    requires !HasId(st, newId)
    ensures upload.RefusedFile? ==> out == (Fail(500, NoMessage), st)
    ensures out.0.Ok? <==> upload.Received? && storedUrl != "" && Present(body.heading)
                           && Present(body.subHeading) && Present(body.productCode)
                           && ParseSlideType(PostedType(body)).Some?
    ensures out.0.Ok? ==> out.0.status == 201 && out.1 == st + [Doc(newId, out.0.value)]
    ensures out.0.Ok? ==> var s := out.0.value;
                          s.isActive && s.image == storedUrl && WellFormed(s)
                          && (s.productId.Some? <==> UsableProductId(body.productId))
                          && (s.kind == ProductSlide <==> !Truthy(body.kind) || body.kind.value == ProductName)
                          && SlideTypeName(s.kind) == PostedType(body)
    ensures out.0.Ok? ==> var s := out.0.value;
                          s.heading == body.heading.value && s.subHeading == body.subHeading.value
                          && s.productCode == body.productCode.value && s.description == body.description
                          && s.productId == (if UsableProductId(body.productId) then body.productId else None)
    ensures !upload.RefusedFile? && out.0.Fail? ==> out.0.status == 400 && out.0.error.Invalid?
    ensures upload.NoFile? ==> out.0.Fail? && out.0.status == 400 && out.0.error.Invalid?
                               && "image" in out.0.error.paths
    ensures out.0.Fail? ==> out.1 == st
  {
    match upload
    case RefusedFile => (Fail(500, NoMessage), st)
    case _ =>
      var image := if upload.Received? then storedUrl else "";
      match Save(PostDraft(body, image))
      case Rejected(paths) => (Fail(400, Invalid(paths)), st)
      case Valid(s) => (Ok(201, s), Insert(st, newId, s))
  }

  // ---------------------------------------------------------------- PUT /:id

  /** The product id after an edit: a usable one is taken, "coming_soon" clears it, otherwise it is kept. */
  function EditedProductId(s: HeroSlide, body: HeroBody): Option<string> {
    if UsableProductId(body.productId) then body.productId
    else if body.kind == Some(ComingSoonName) then None
    else s.productId
  }

  /** The loaded slide with the submitted fields assigned over it, `||`-style. */
  function PutDraft(s: HeroSlide, body: HeroBody, image: string): HeroDraft {
    HeroDraft(Some(image),
              Or(body.heading, Some(s.heading)),
              Or(body.subHeading, Some(s.subHeading)),
              Or(body.description, s.description),
              Or(body.productCode, Some(s.productCode)),
              Some(s.isActive),
              Or(body.kind, Some(SlideTypeName(s.kind))),
              EditedProductId(s, body))
  }

  /** Validating and saving the edited slide; a new image replaces the old URL. */
  function Edit(s: HeroSlide, body: HeroBody, upload: Upload, storedUrl: string): Validation {
    Save(PutDraft(s, body, if upload.Received? then storedUrl else s.image))
  }

  /**
  What an accepted edit leaves in each field of slide `s`: a truthy form value
  replaces the field and a missing or empty one keeps it; a received file
  replaces the image; `isActive` is never touched.
  */
  predicate Edited(s: HeroSlide, body: HeroBody, upload: Upload, storedUrl: string, t: HeroSlide) {
    && t.image == (if upload.Received? then storedUrl else s.image)
    && t.heading == (if Truthy(body.heading) then body.heading.value else s.heading)
    && t.subHeading == (if Truthy(body.subHeading) then body.subHeading.value else s.subHeading)
    && t.description == (if Truthy(body.description) then body.description else s.description)
    && t.productCode == (if Truthy(body.productCode) then body.productCode.value else s.productCode)
    && t.isActive == s.isActive
    && SlideTypeName(t.kind) == (if Truthy(body.kind) then body.kind.value else SlideTypeName(s.kind))
    && t.productId == EditedProductId(s, body)
  }

  /** The reply, the collection afterwards, and the Cloudinary public id destroyed on the way. */
  datatype Outcome<T> = Outcome(reply: Reply<T>, store: HeroStore, destroyed: Option<string>)

  /**
  `PUT /:id` as written: when a new image arrives, the old one is destroyed on
  Cloudinary BEFORE the document is validated and saved.
  */
  function HeroPut(st: HeroStore, id: string, body: HeroBody, upload: Upload, storedUrl: string)
    : (out: Outcome<HeroSlide>)
    ensures upload.RefusedFile? ==> out == Outcome(Fail(500, NoMessage), st, None)
    ensures !upload.RefusedFile? && !HasId(st, id) ==>
              out == Outcome(Fail(404, Message("Slide not found")), st, None)
    ensures out.reply.Ok? ==> out.reply.status == 200 && out.store == ReplaceById(st, id, out.reply.value)
    ensures out.reply.Fail? ==> out.store == st
    ensures out.reply.Ok? ==> FindById(st, id).Some? && Edited(FindById(st, id).value, body, upload, storedUrl, out.reply.value)
    ensures out.destroyed.Some? ==> upload.Received? && HasId(st, id)
                                    && out.destroyed == PublicIdOf(FindById(st, id).value.image)
  {
    match upload
    case RefusedFile => Outcome(Fail(500, NoMessage), st, None)
    case _ =>
      match FindById(st, id)
      case None => Outcome(Fail(404, Message("Slide not found")), st, None)
      case Some(s) =>
        var destroyed := if upload.Received? then PublicIdOf(s.image) else None;
        match Edit(s, body, upload, storedUrl)
        case Rejected(paths) => Outcome(Fail(400, Invalid(paths)), st, destroyed)
        case Valid(t) => Outcome(Ok(200, t), ReplaceById(st, id, t), destroyed)
  }

  /** The same edit, with the old image destroyed only once the new document has been saved. */
  function HeroPutDestroyAfterSave(st: HeroStore, id: string, body: HeroBody, upload: Upload, storedUrl: string)
    : (out: Outcome<HeroSlide>)
    ensures out.destroyed.Some? ==> out.reply.Ok? && upload.Received?
                                    && FindById(out.store, id) == Some(out.reply.value)
                                    && out.reply.value.image == storedUrl
    ensures out.reply == HeroPut(st, id, body, upload, storedUrl).reply
    ensures out.store == HeroPut(st, id, body, upload, storedUrl).store
  {
    var o := HeroPut(st, id, body, upload, storedUrl);
    if o.reply.Ok? then
      FindAfterReplace(st, id, o.reply.value, id);
      o
    else Outcome(o.reply, o.store, None)
  }

  // ---------------------------------------------------------------- DELETE /:id

  /** `DELETE /:id`: the reply is the same whether or not the slide existed. */
  function HeroDelete(st: HeroStore, id: string): (out: Outcome<string>)
    ensures out.reply == Ok(200, "Slide deleted")
    ensures !HasId(out.store, id)
    ensures forall o :: o != id ==> FindById(out.store, o) == FindById(st, o)
    ensures out.destroyed.Some? ==> HasId(st, id) && out.destroyed == PublicIdOf(FindById(st, id).value.image)
  {
    FindAfterDeleteAll(st, id);
    var destroyed := match FindById(st, id)
      case Some(s) => PublicIdOf(s.image)
      case None => None;
    Outcome(Ok(200, "Slide deleted"), DeleteById(st, id), destroyed)
  }

  lemma FindAfterDeleteAll(st: HeroStore, id: string)
    ensures forall o :: o != id ==> FindById(DeleteById(st, id), o) == FindById(st, o)
  {
    forall o | o != id ensures FindById(DeleteById(st, id), o) == FindById(st, o) {
      FindAfterDelete(st, id, o);
    }
  }

  // ---------------------------------------------------------------- properties

  lemma PostKeepsStoreValid(st: HeroStore, body: HeroBody, upload: Upload, storedUrl: string, newId: string)
    requires StoreValid(st) && !HasId(st, newId)
    ensures StoreValid(HeroPost(st, body, upload, storedUrl, newId).1)
  {
    var out := HeroPost(st, body, upload, storedUrl, newId);
    if out.0.Ok? {
      InsertKeepsUniqueIds(st, newId, out.0.value);
      assert out.1[|st|].value == out.0.value;
    }
  }

  /** A slide that was just added is served by GET, after the slides already served. */
  lemma PostedSlideIsServed(st: HeroStore, body: HeroBody, upload: Upload, storedUrl: string, newId: string)
    requires !HasId(st, newId)
    requires HeroPost(st, body, upload, storedUrl, newId).0.Ok?
    ensures var out := HeroPost(st, body, upload, storedUrl, newId);
            ActiveSlides(out.1) == ActiveSlides(st) + [out.0.value]
  {
    var out := HeroPost(st, body, upload, storedUrl, newId);
    ActiveSlidesAppend(st, [Doc(newId, out.0.value)]);
  }

  lemma EditKeepsSlideValid(s: HeroSlide, body: HeroBody, upload: Upload, storedUrl: string)
    requires SlideValid(s)
    ensures Edit(s, body, upload, storedUrl).Valid? ==> SlideValid(Edit(s, body, upload, storedUrl).slide)
  {
  }

  /** An edit of a valid slide saves unless a new image has no URL or the form's type is outside the enumeration. */
  lemma EditSaves(s: HeroSlide, body: HeroBody, upload: Upload, storedUrl: string)
    requires SlideValid(s)
    ensures Edit(s, body, upload, storedUrl).Valid? <==>
              (upload.Received? ==> storedUrl != "")
              && (!Truthy(body.kind) || ParseSlideType(body.kind.value).Some?)
  {
    SlideTypeRoundTrip(s.kind);
  }

  /** The slide a successful edit of the `k`-th document stores. */
  lemma PutFound(st: HeroStore, k: nat, body: HeroBody, upload: Upload, storedUrl: string)
    requires UniqueIds(st) && k < |st| && !upload.RefusedFile?
    ensures var out := HeroPut(st, st[k].id, body, upload, storedUrl);
            var e := Edit(st[k].value, body, upload, storedUrl);
            (out.reply.Ok? <==> e.Valid?) && (e.Valid? ==> out.reply.value == e.slide)
  {
    FindByIdUnique(st, k);
  }

  lemma PutKeepsStoreValid(st: HeroStore, id: string, body: HeroBody, upload: Upload, storedUrl: string)
    requires StoreValid(st)
    ensures StoreValid(HeroPut(st, id, body, upload, storedUrl).store)
  {
    var out := HeroPut(st, id, body, upload, storedUrl);
    if out.reply.Ok? {
      var t := out.reply.value;
      var s := FindById(st, id).value;
      var k :| 0 <= k < |st| && st[k] == Doc(id, s);
      PutFound(st, k, body, upload, storedUrl);
      EditKeepsSlideValid(s, body, upload, storedUrl);
      ReplaceKeepsUniqueIds(st, id, t);
      var r := ReplaceById(st, id, t);
      forall i | 0 <= i < |r| ensures SlideValid(r[i].value) {
        if st[i].id != id {
          assert r[i] == st[i];
        }
      }
    }
  }

  lemma DeleteKeepsStoreValid(st: HeroStore, id: string)
    requires StoreValid(st)
    ensures StoreValid(HeroDelete(st, id).store)
  {
    DeleteKeepsUniqueIds(st, id);
    var r := DeleteById(st, id);
    forall i | 0 <= i < |r| ensures r[i] in st {
    }
  }

  /** Editing a slide already edited with the same fields stores it unchanged. */
  lemma EditAgainIsSame(t: HeroSlide, body: HeroBody, upload: Upload, storedUrl: string)
    requires SlideValid(t)
    requires upload.Received? ==> t.image == storedUrl
    requires Truthy(body.heading) ==> t.heading == body.heading.value
    requires Truthy(body.subHeading) ==> t.subHeading == body.subHeading.value
    requires Truthy(body.description) ==> t.description == body.description
    requires Truthy(body.productCode) ==> t.productCode == body.productCode.value
    requires Truthy(body.kind) ==> ParseSlideType(body.kind.value) == Some(t.kind)
    requires t.productId == EditedProductId(t, body)
    ensures Edit(t, body, upload, storedUrl) == Valid(t)
  {
    assert PutDraft(t, body, if upload.Received? then storedUrl else t.image) == DraftOf(t);
    SaveDraftOf(t);
  }

  /** A slide produced by an edit is a fixed point of the same edit. */
  lemma EditTwice(s: HeroSlide, body: HeroBody, upload: Upload, storedUrl: string)
    requires SlideValid(s) && Edit(s, body, upload, storedUrl).Valid?
    ensures var t := Edit(s, body, upload, storedUrl).slide;
            Edit(t, body, upload, storedUrl) == Valid(t)
  {
    EditKeepsSlideValid(s, body, upload, storedUrl);
    EditAgainIsSame(Edit(s, body, upload, storedUrl).slide, body, upload, storedUrl);
  }

  /** Submitting the same edit twice leaves the collection as the first submission did. */
  lemma PutIdempotent(st: HeroStore, id: string, body: HeroBody, upload: Upload, storedUrl: string)
    requires StoreValid(st)
    ensures var once := HeroPut(st, id, body, upload, storedUrl).store;
            HeroPut(once, id, body, upload, storedUrl).store == once
  {
    var out := HeroPut(st, id, body, upload, storedUrl);
    if out.reply.Ok? {
      var t := out.reply.value;
      var s := FindById(st, id).value;
      var k :| 0 <= k < |st| && st[k] == Doc(id, s);
      PutFound(st, k, body, upload, storedUrl);
      EditTwice(s, body, upload, storedUrl);
      ReplaceKeepsUniqueIds(st, id, t);
      var once := ReplaceById(st, id, t);
      assert once[k] == Doc(id, t);
      PutFound(once, k, body, upload, storedUrl);
      ReplaceIdempotent(st, id, t);
    }
  }

  /** An edit with no fields and no file saves the slide unchanged. */
  lemma EmptyEditKeepsSlide(st: HeroStore, k: nat)
    requires StoreValid(st) && k < |st|
    ensures HeroPut(st, st[k].id, HeroBody(None, None, None, None, None, None), NoFile, "")
            == Outcome(Ok(200, st[k].value), st, None)
  {
    var s := st[k].value;
    FindByIdUnique(st, k);
    assert PutDraft(s, HeroBody(None, None, None, None, None, None), s.image) == DraftOf(s);
    SaveDraftOf(s);
    ReplaceWithSame(st, k);
  }

  /** Switching a slide to "coming_soon" without a usable product id drops its product link. */
  lemma ComingSoonClearsProduct(st: HeroStore, k: nat, body: HeroBody)
    requires StoreValid(st) && k < |st|
    requires body.kind == Some(ComingSoonName) && !UsableProductId(body.productId)
    ensures var out := HeroPut(st, st[k].id, body, NoFile, "");
            out.reply.Ok? && out.reply.value.kind == ComingSoon && out.reply.value.productId.None?
  {
    PutFound(st, k, body, NoFile, "");
    EditSaves(st[k].value, body, NoFile, "");
    SlideTypeRoundTrip(ComingSoon);
  }

  /** A usable product id is stored even on a "coming_soon" slide. */
  lemma ComingSoonKeepsUsableProduct(st: HeroStore, k: nat, body: HeroBody)
    requires StoreValid(st) && k < |st|
    requires body.kind == Some(ComingSoonName) && UsableProductId(body.productId)
    ensures var out := HeroPut(st, st[k].id, body, NoFile, "");
            out.reply.Ok? && out.reply.value.kind == ComingSoon && out.reply.value.productId == body.productId
  {
    PutFound(st, k, body, NoFile, "");
    EditSaves(st[k].value, body, NoFile, "");
    SlideTypeRoundTrip(ComingSoon);
  }

  /**
  The edit as written destroys the old Cloudinary asset even when the save then
  fails: an unknown `type` sent with a new image leaves the slide pointing at an
  image that no longer exists.
  */
  lemma DestroyBeforeSaveLosesImage(st: HeroStore, k: nat, body: HeroBody, f: UploadedFile, storedUrl: string)
    requires StoreValid(st) && k < |st|
    requires Includes(st[k].value.image, CloudinaryHost)
    requires body.kind == Some("banner")
    ensures var out := HeroPut(st, st[k].id, body, Received(f), storedUrl);
            out.reply.Fail? && out.reply.status == 400
            && out.destroyed == PublicIdOf(st[k].value.image) && out.destroyed.Some?
            && FindById(out.store, st[k].id) == Some(st[k].value)
  {
    FindByIdUnique(st, k);
    var s := st[k].value;
    assert Or(body.kind, Some(SlideTypeName(s.kind))) == Some("banner");
    UnknownTypeRejected(PutDraft(s, body, storedUrl));
  }

  lemma DeleteIdempotent(st: HeroStore, id: string)
    ensures HeroDelete(HeroDelete(st, id).store, id).store == HeroDelete(st, id).store
  {
  }
}

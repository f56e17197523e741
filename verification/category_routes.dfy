/**
The `/api/categories` create, update and delete handlers. Uploads are written to
disk as "category-<milliseconds><extension>" and served under "/uploads/";
the clock reading and the fresh document id are parameters.
*/
module CategoryRoutes {
  import opened Wrappers
  import opened Strings
  import opened Http
  import opened Documents
  import opened FileFilter

  datatype Category = Category(name: string, description: Option<string>, image: string)

  type CategoryStore = Collection<Category>

  /** The form fields read on create. */
  datatype NewCategory = NewCategory(name: string, description: Option<string>)

  /** The form fields read on update; either may be missing. */
  datatype CategoryEdit = CategoryEdit(name: Option<string>, description: Option<string>)

  const AlreadyExists: string := "Category already exists"
  const NotFound: string := "Category not found"
  const Removed: string := "Category removed"
  const UploadsPrefix: string := "/uploads/"

  /** The disk storage's file name: a '.'-free stem, then the original name's extension. */
  function StoredFileName(originalName: string, now: nat): (name: string)
    ensures ExtName(name) == ExtName(originalName)
  {
    var stem := "category-" + Decimal(now);
    assert stem[0] == 'c';
    assert '.' !in stem && '/' !in stem by {
      assert forall i :: 9 <= i < |stem| ==> stem[i] == Decimal(now)[i - 9];
    }
    ExtNameKept(stem, originalName);
    stem + ExtName(originalName)
  }

  /** The image path recorded for an accepted upload. */
  function ImagePath(f: UploadedFile, now: nat): (p: string)
    ensures StartsWith(p, UploadsPrefix)
  {
    UploadsPrefix + StoredFileName(f.originalName, now)
  }

  predicate NameTaken(st: CategoryStore, name: string) {
    exists i :: 0 <= i < |st| && st[i].value.name == name
  }

  predicate NamesUnique(st: CategoryStore) {
    forall i, j :: 0 <= i < j < |st| ==> st[i].value.name != st[j].value.name
  }

  /**
  `POST /`: a refused upload never reaches the handler; a taken name is
  refused; otherwise the category is created, with '' as its image when no
  file came.
  */
  function CreateCategory(st: CategoryStore, body: NewCategory, upload: Upload, now: nat, newId: string)
    : (out: (Reply<Category>, CategoryStore))
    requires !HasId(st, newId)
    ensures upload.RefusedFile? ==> out == (Fail(500, NoMessage), st)
    ensures !upload.RefusedFile? && NameTaken(st, body.name) ==> out == (Fail(400, Message(AlreadyExists)), st)
    ensures out.0.Ok? <==> !upload.RefusedFile? && !NameTaken(st, body.name)
    ensures out.0.Ok? ==> out.0.status == 201 && out.1 == st + [Doc(newId, out.0.value)]
                          && out.0.value.name == body.name && out.0.value.description == body.description
                          && (upload.NoFile? <==> out.0.value.image == "")
                          && (upload.Received? ==> out.0.value.image == ImagePath(upload.file, now))
  {
    if upload.RefusedFile? then (Fail(500, NoMessage), st)
    else if NameTaken(st, body.name) then (Fail(400, Message(AlreadyExists)), st)
    else
      var c := Category(body.name, body.description, UploadedImage(upload, now));
      (Ok(201, c), Insert(st, newId, c))
  }

  /** `req.file ? '/uploads/' + filename : ''`. */
  function UploadedImage(upload: Upload, now: nat): string {
    match upload
    case Received(f) => ImagePath(f, now)
    case _ => ""
  }

  /** `category.x = req.body.x || category.x`, with the image replaced only by a new file. */
  function Merge(c: Category, body: CategoryEdit, upload: Upload, now: nat): Category {
    Category(Or(body.name, Some(c.name)).value,
             Or(body.description, c.description),
             if upload.Received? then UploadedImage(upload, now) else c.image)
  }

  /** `PUT /:id`: no duplicate-name check is made on update. */
  function UpdateCategory(st: CategoryStore, id: string, body: CategoryEdit, upload: Upload, now: nat)
    : (out: (Reply<Category>, CategoryStore))
    ensures upload.RefusedFile? ==> out == (Fail(500, NoMessage), st)
    ensures !upload.RefusedFile? && !HasId(st, id) ==> out == (Fail(404, Message(NotFound)), st)
    ensures out.0.Ok? <==> !upload.RefusedFile? && HasId(st, id)
    ensures out.0.Ok? ==> out.0.status == 200 && out.1 == ReplaceById(st, id, out.0.value)
    ensures out.0.Ok? ==> var old_ := FindById(st, id).value;
                          var c := out.0.value;
                          c.name == (if Truthy(body.name) then body.name.value else old_.name)
                          && c.description == (if Truthy(body.description) then body.description else old_.description)
                          && (upload.NoFile? ==> c.image == old_.image)
                          && (upload.Received? ==> c.image == ImagePath(upload.file, now))
  {
    match upload
    case RefusedFile => (Fail(500, NoMessage), st)
    case _ =>
      match FindById(st, id)
      case None => (Fail(404, Message(NotFound)), st)
      case Some(c) =>
        var c' := Merge(c, body, upload, now);
        (Ok(200, c'), ReplaceById(st, id, c'))
  }

  /** `DELETE /:id`. */
  function DeleteCategory(st: CategoryStore, id: string): (out: (Reply<string>, CategoryStore))
    ensures HasId(st, id) <==> out.0.Ok?
    ensures out.0.Ok? ==> out.0 == Ok(200, Removed)
    ensures out.0.Fail? ==> out == (Fail(404, Message(NotFound)), st)
    ensures !HasId(out.1, id)
    ensures forall o :: o != id ==> FindById(out.1, o) == FindById(st, o)
  {
    forall o | o != id ensures FindById(DeleteById(st, id), o) == FindById(st, o) {
      FindAfterDelete(st, id, o);
    }
    if HasId(st, id) then (Ok(200, Removed), DeleteById(st, id))
    else (Fail(404, Message(NotFound)), st)
  }

  // ---------------------------------------------------------------- properties

  /** Creation never introduces a second category with the same name. */
  lemma CreateKeepsNamesUnique(st: CategoryStore, body: NewCategory, upload: Upload, now: nat, newId: string)
    requires !HasId(st, newId) && NamesUnique(st) && UniqueIds(st)
    ensures var st' := CreateCategory(st, body, upload, now, newId).1;
            NamesUnique(st') && UniqueIds(st')
  {
    var out := CreateCategory(st, body, upload, now, newId);
    if out.0.Ok? {
      InsertKeepsUniqueIds(st, newId, out.0.value);
      var st' := out.1;
      forall i, j | 0 <= i < j < |st'| ensures st'[i].value.name != st'[j].value.name {
        if j == |st| {
          assert st'[i] == st[i];
        }
      }
    }
  }

  /** Submitting the same new category twice: the second submission is refused. */
  lemma CreateTwiceRefused(st: CategoryStore, body: NewCategory, upload: Upload, now: nat, id1: string, id2: string)
    requires !HasId(st, id1) && !HasId(st, id2) && id1 != id2
    requires !upload.RefusedFile? && !NameTaken(st, body.name)
    ensures var st' := CreateCategory(st, body, upload, now, id1).1;
            CreateCategory(st', body, upload, now, id2) == (Fail(400, Message(AlreadyExists)), st')
  {
    var st' := CreateCategory(st, body, upload, now, id1).1;
    assert st'[|st|].value.name == body.name;
    HasIdAppend(st, Doc(id1, st'[|st|].value));
  }

  /** An update with no fields and no file leaves the collection as it was. */
  lemma EmptyUpdateKeepsStore(st: CategoryStore, k: nat, now: nat)
    requires UniqueIds(st) && k < |st|
    ensures UpdateCategory(st, st[k].id, CategoryEdit(None, None), NoFile, now) == (Ok(200, st[k].value), st)
  {
    FindByIdUnique(st, k);
    ReplaceWithSame(st, k);
  }

  /** Sending the same update twice stores what the first one stored. */
  lemma UpdateIdempotent(st: CategoryStore, id: string, body: CategoryEdit, upload: Upload, now: nat)
    requires UniqueIds(st)
    ensures var once := UpdateCategory(st, id, body, upload, now).1;
            UpdateCategory(once, id, body, upload, now).1 == once
  {
    var out := UpdateCategory(st, id, body, upload, now);
    if out.0.Ok? {
      var c := FindById(st, id).value;
      var k :| 0 <= k < |st| && st[k] == Doc(id, c);
      FindByIdUnique(st, k);
      var c' := Merge(c, body, upload, now);
      assert Merge(c', body, upload, now) == c';
      ReplaceKeepsUniqueIds(st, id, c');
      var once := ReplaceById(st, id, c');
      assert once[k] == Doc(id, c');
      FindByIdUnique(once, k);
      ReplaceIdempotent(st, id, c');
    }
  }

  /** Renaming is not checked against the other names: two categories can end up sharing one. */
  lemma UpdateMayDuplicateName()
    ensures var st := [Doc("a", Category("Rings", None, "")), Doc("b", Category("Chains", None, ""))];
            var out := UpdateCategory(st, "b", CategoryEdit(Some("Rings"), None), NoFile, 0);
            NamesUnique(st) && out.0.Ok? && !NamesUnique(out.1)
  {
    var st := [Doc("a", Category("Rings", None, "")), Doc("b", Category("Chains", None, ""))];
    assert "Rings" != "Chains" by {
      assert "Rings"[0] != "Chains"[0];
    }
    assert "a" != "b";
    FindByIdUnique(st, 1);
    var out := UpdateCategory(st, "b", CategoryEdit(Some("Rings"), None), NoFile, 0);
    assert out.1[1].value.name == "Rings";
    assert out.1[0] == st[0];
  }

  /** Deleting twice: the second request finds nothing and answers 404. */
  lemma DeleteTwiceNotFound(st: CategoryStore, id: string)
    requires HasId(st, id)
    ensures var st' := DeleteCategory(st, id).1;
            DeleteCategory(st', id) == (Fail(404, Message(NotFound)), st')
  {
  }
}

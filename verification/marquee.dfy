/**
The marquee banner settings and the `/api/marquee` routes. There is meant to be
one settings document: GET creates it from the schema defaults when the
collection is empty, PUT assigns every field the request defines. A database
fault is a parameter.
*/
module MarqueeRoutes {
  import opened Wrappers
  import opened Http
  import opened Documents

  datatype Marquee = Marquee(text: string, isActive: bool, bgColor: string, textColor: string)

  type MarqueeStore = Collection<Marquee>

  const DefaultText: string := "shows new collections out , collect now !"
  const DefaultBgColor: string := "theme"
  const DefaultTextColor: string := "white"

  /** `new Marquee()`: every path at its schema default. */
  function Defaults(): (m: Marquee)
    ensures m.text == "shows new collections out , collect now !" && m.isActive
    ensures m.bgColor == "theme" && m.textColor == "white"
  {
    Marquee(DefaultText, true, DefaultBgColor, DefaultTextColor)
  }

  /** `text` is the one required path; '' fails it. */
  predicate Savable(m: Marquee) {
    m.text != ""
  }

  predicate StoreValid(st: MarqueeStore) {
    UniqueIds(st) && forall i :: 0 <= i < |st| ==> Savable(st[i].value)
  }

  /** The JSON fields of a PUT; a field that is absent is undefined. */
  datatype MarqueeBody = MarqueeBody(text: Option<string>, isActive: Option<bool>,
                                     bgColor: Option<string>, textColor: Option<string>)

  /** `if (x !== undefined) marquee.x = x` for each field: defined values overwrite, '' included. */
  function Assign(m: Marquee, b: MarqueeBody): (r: Marquee)
    ensures b.text.Some? ==> r.text == b.text.value
    ensures b.text.None? ==> r.text == m.text
    ensures b.isActive.Some? ==> r.isActive == b.isActive.value
    ensures b.isActive.None? ==> r.isActive == m.isActive
    ensures b.bgColor.Some? ==> r.bgColor == b.bgColor.value
    ensures b.bgColor.None? ==> r.bgColor == m.bgColor
    ensures b.textColor.Some? ==> r.textColor == b.textColor.value
    ensures b.textColor.None? ==> r.textColor == m.textColor
  {
    Marquee(b.text.GetOr(m.text), b.isActive.GetOr(m.isActive),
            b.bgColor.GetOr(m.bgColor), b.textColor.GetOr(m.textColor))
  }

  /** `GET /`: `findOne()`, creating and saving the defaults when there is no document. */
  function MarqueeGet(st: MarqueeStore, newId: string, fault: Option<string>): (out: (Reply<Marquee>, MarqueeStore))
    requires !HasId(st, newId)
    ensures fault.Some? ==> out == (Fail(500, Message(fault.value)), st)
    ensures fault.None? && |st| > 0 ==> out == (Ok(200, st[0].value), st)
    ensures fault.None? && |st| == 0 ==> out == (Ok(200, Defaults()), [Doc(newId, Defaults())])
    ensures |out.1| >= 1 || fault.Some?
  {
    if fault.Some? then (Fail(500, Message(fault.value)), st)
    else if |st| > 0 then (Ok(200, st[0].value), st)
    else
      assert st + [Doc(newId, Defaults())] == [Doc(newId, Defaults())];
      (Ok(200, Defaults()), Insert(st, newId, Defaults()))
  }

  /**
  `PUT /`: with no document the body goes through `new Marquee(...)`, where an
  undefined field takes its default; otherwise the defined fields are assigned
  onto the first document. Any failure, a validation failure included, is a 400.
  */
  function MarqueePut(st: MarqueeStore, b: MarqueeBody, newId: string, fault: Option<string>)
    : (out: (Reply<Marquee>, MarqueeStore))
    requires !HasId(st, newId)
    ensures fault.Some? ==> out == (Fail(400, Message(fault.value)), st)
    ensures out.0.Ok? <==> fault.None? && b.text != Some("")
                           && (|st| > 0 && b.text.None? ==> st[0].value.text != "")
    ensures out.0.Fail? ==> out.1 == st && out.0.status == 400
    ensures out.0.Ok? ==> out.0.status == 200 && Savable(out.0.value)
    ensures out.0.Ok? && |st| == 0 ==> out.1 == [Doc(newId, out.0.value)] && out.0.value == Assign(Defaults(), b)
    ensures out.0.Ok? && |st| > 0 ==> out.1 == ReplaceById(st, st[0].id, out.0.value)
                                      && out.0.value == Assign(st[0].value, b)
  {
    if fault.Some? then (Fail(400, Message(fault.value)), st)
    else
      var m := if |st| == 0 then Assign(Defaults(), b) else Assign(st[0].value, b);
      if !Savable(m) then (Fail(400, Invalid(["text"])), st)
      else if |st| == 0 then (Ok(200, m), Insert(st, newId, m))
      else (Ok(200, m), ReplaceById(st, st[0].id, m))
  }

  // ---------------------------------------------------------------- properties

  /** Assigning the same fields twice is assigning them once. */
  lemma AssignIdempotent(m: Marquee, b: MarqueeBody)
    ensures Assign(Assign(m, b), b) == Assign(m, b)
  {
  }

  /** An empty body assigns nothing. */
  lemma AssignNothing(m: Marquee)
    ensures Assign(m, MarqueeBody(None, None, None, None)) == m
  {
  }

  /** Reading twice creates the settings at most once, and both reads agree. */
  lemma GetTwiceCreatesOnce(st: MarqueeStore, id1: string, id2: string)
    requires !HasId(st, id1)
    requires var st' := MarqueeGet(st, id1, None).1; !HasId(st', id2)
    ensures var (r1, st') := MarqueeGet(st, id1, None);
            MarqueeGet(st', id2, None) == (r1, st') && |st'| == if |st| == 0 then 1 else |st|
  {
  }

  lemma GetKeepsStoreValid(st: MarqueeStore, newId: string, fault: Option<string>)
    requires StoreValid(st) && !HasId(st, newId)
    ensures StoreValid(MarqueeGet(st, newId, fault).1)
  {
    if fault.None? && |st| == 0 {
      InsertKeepsUniqueIds(st, newId, Defaults());
    }
  }

  lemma PutKeepsStoreValid(st: MarqueeStore, b: MarqueeBody, newId: string, fault: Option<string>)
    requires StoreValid(st) && !HasId(st, newId)
    ensures StoreValid(MarqueePut(st, b, newId, fault).1)
  {
    var out := MarqueePut(st, b, newId, fault);
    if out.0.Ok? {
      var m := out.0.value;
      assert Savable(m);
      if |st| == 0 {
        InsertKeepsUniqueIds(st, newId, m);
        assert out.1 == [Doc(newId, m)];
      } else {
        ReplaceKeepsUniqueIds(st, st[0].id, m);
        var r := ReplaceById(st, st[0].id, m);
        assert out.1 == r;
        forall i | 0 <= i < |r|
          ensures Savable(r[i].value)
        {
          if st[i].id != st[0].id {
            assert r[i] == st[i];
          }
        }
      }
    }
  }

  /** On a valid collection, a second identical PUT leaves the settings as the first left them. */
  lemma PutIdempotent(st: MarqueeStore, b: MarqueeBody, id1: string, id2: string)
    requires StoreValid(st) && !HasId(st, id1)
    requires var st' := MarqueePut(st, b, id1, None).1; !HasId(st', id2)
    ensures var st' := MarqueePut(st, b, id1, None).1;
            MarqueePut(st', b, id2, None).1 == st'
  {
    var (r, st') := MarqueePut(st, b, id1, None);
    if r.Ok? {
      if |st| == 0 {
        assert st'[0].value == r.value;
      } else {
        var i := IndexOfId(st, st[0].id);
        assert i == 0;
        assert st'[0].value == r.value;
        ReplaceIdempotent(st, st[0].id, r.value);
      }
      AssignIdempotent(if |st| == 0 then Defaults() else st[0].value, b);
    }
  }

  /** An empty text is refused even though the other fields accept ''. */
  lemma EmptyTextRefused(st: MarqueeStore, b: MarqueeBody, newId: string)
    requires !HasId(st, newId) && b.text == Some("")
    ensures MarqueePut(st, b, newId, None) == (Fail(400, Invalid(["text"])), st)
  {
  }

  /** An empty colour is stored as given: `!== undefined` lets '' through, unlike `||`. */
  lemma EmptyColourStored(st: MarqueeStore, b: MarqueeBody, newId: string)
    requires StoreValid(st) && !HasId(st, newId) && b.text.None? && b.bgColor == Some("")
    ensures var out := MarqueePut(st, b, newId, None);
            out.0.Ok? && out.0.value.bgColor == ""
  {
  }
}

/**
A MongoDB collection as the route handlers see it: documents in natural
(insertion) order, each with an id. `findById`, `findOne`, `save` of a loaded
document, `findByIdAndDelete` and `deleteOne` are the operations used.
*/
module Documents {
  import opened Wrappers

  datatype Doc<T> = Doc(id: string, value: T)

  type Collection<T> = seq<Doc<T>>

  predicate HasId<T>(c: Collection<T>, id: string) {
    exists i :: 0 <= i < |c| && c[i].id == id
  }

  predicate UniqueIds<T>(c: Collection<T>) {
    forall i, j :: 0 <= i < j < |c| ==> c[i].id != c[j].id
  }

  /** Position of the first document with this id, or `|c|` when there is none. */
  function IndexOfId<T>(c: Collection<T>, id: string): (k: nat)
    ensures k <= |c|
    ensures k < |c| ==> c[k].id == id
    ensures forall j :: 0 <= j < k ==> c[j].id != id
  {
    if |c| == 0 then 0
    else if c[0].id == id then 0
    else 1 + IndexOfId(c[1..], id)
  }

  /** `Model.findById(id)`: the document with that id, or none. */
  function FindById<T>(c: Collection<T>, id: string): (r: Option<T>)
    ensures r.None? <==> !HasId(c, id)
    ensures r.Some? ==> exists i :: 0 <= i < |c| && c[i] == Doc(id, r.value)
  {
    var k := IndexOfId(c, id);
    if k < |c| then Some(c[k].value) else None
  }

  /** Saving a loaded document back: the one with this id takes the new value, in place. */
  function ReplaceById<T>(c: Collection<T>, id: string, v: T): (r: Collection<T>)
    ensures |r| == |c|
    ensures forall i :: 0 <= i < |c| ==> r[i].id == c[i].id
    ensures forall i :: 0 <= i < |c| && c[i].id != id ==> r[i] == c[i]
    ensures forall i :: 0 <= i < |c| && c[i].id == id ==> r[i].value == v
  {
    seq(|c|, i requires 0 <= i < |c| => if c[i].id == id then Doc(id, v) else c[i])
  }

  /** `findByIdAndDelete(id)`: every document with that id goes, the rest keep their order. */
  function DeleteById<T>(c: Collection<T>, id: string): (r: Collection<T>)
    ensures |r| <= |c|
    ensures !HasId(r, id)
    ensures forall o :: o != id ==> (HasId(r, o) <==> HasId(c, o))
    ensures !HasId(c, id) ==> r == c
  {
    if |c| == 0 then c
    else
      HasIdFront(c);
      if c[0].id == id then DeleteById(c[1..], id)
      else
        HasIdFront([c[0]] + DeleteById(c[1..], id));
        assert ([c[0]] + DeleteById(c[1..], id))[1..] == DeleteById(c[1..], id);
        [c[0]] + DeleteById(c[1..], id)
  }

  /** A new document saved with a freshly generated id. */
  function Insert<T>(c: Collection<T>, id: string, v: T): (r: Collection<T>)
    ensures HasId(r, id)
    ensures forall o :: HasId(r, o) <==> HasId(c, o) || o == id
  {
    HasIdAppend(c, Doc(id, v));
    c + [Doc(id, v)]
  }

  lemma HasIdFront<T>(c: Collection<T>)
    requires |c| > 0
    ensures forall o :: HasId(c, o) <==> c[0].id == o || HasId(c[1..], o)
  {
    forall o | HasId(c, o) && c[0].id != o ensures HasId(c[1..], o) {
      var i :| 0 <= i < |c| && c[i].id == o;
      assert c[1..][i - 1].id == o;
    }
    forall o | HasId(c[1..], o) ensures HasId(c, o) {
      var i :| 0 <= i < |c[1..]| && c[1..][i].id == o;
      assert c[i + 1].id == o;
    }
  }

  lemma HasIdAppend<T>(c: Collection<T>, d: Doc<T>)
    ensures forall o :: HasId(c + [d], o) <==> HasId(c, o) || o == d.id
  {
    var r := c + [d];
    assert r[|c|] == d;
    forall o | HasId(r, o) && o != d.id ensures HasId(c, o) {
      var i :| 0 <= i < |r| && r[i].id == o;
      assert c[i].id == o;
    }
    forall o | HasId(c, o) ensures HasId(r, o) {
      var i :| 0 <= i < |c| && c[i].id == o;
      assert r[i].id == o;
    }
  }

  /** The first document whose id matches is the only one when ids are unique. */
  lemma FindByIdUnique<T>(c: Collection<T>, i: nat)
    requires UniqueIds(c) && i < |c|
    ensures FindById(c, c[i].id) == Some(c[i].value)
  {
    var k := IndexOfId(c, c[i].id);
    assert k == i;
  }

  /** After a replace, finding the id yields the new value; other ids are unaffected. */
  lemma FindAfterReplace<T>(c: Collection<T>, id: string, v: T, o: string)
    ensures FindById(ReplaceById(c, id, v), o) == if o == id && HasId(c, id) then Some(v) else FindById(c, o)
  {
    var r := ReplaceById(c, id, v);
    var k := IndexOfId(c, o);
    assert IndexOfId(r, o) == k;
    if o == id && HasId(c, id) {
      var w :| 0 <= w < |c| && c[w].id == id;
      assert k <= w;
    }
  }

  lemma ReplaceKeepsUniqueIds<T>(c: Collection<T>, id: string, v: T)
    requires UniqueIds(c)
    ensures UniqueIds(ReplaceById(c, id, v))
    ensures forall o :: HasId(ReplaceById(c, id, v), o) <==> HasId(c, o)
  {
    var r := ReplaceById(c, id, v);
    forall o | HasId(c, o) ensures HasId(r, o) {
      var i :| 0 <= i < |c| && c[i].id == o;
      assert r[i].id == o;
    }
    forall o | HasId(r, o) ensures HasId(c, o) {
      var i :| 0 <= i < |r| && r[i].id == o;
      assert c[i].id == o;
    }
  }

  /** Replacing with the value already stored changes nothing. */
  lemma ReplaceWithSame<T>(c: Collection<T>, i: nat)
    requires UniqueIds(c) && i < |c|
    ensures ReplaceById(c, c[i].id, c[i].value) == c
  {
    var r := ReplaceById(c, c[i].id, c[i].value);
    forall j | 0 <= j < |c| ensures r[j] == c[j] {
      if c[j].id == c[i].id {
        assert j == i;
      }
    }
  }

  /** Replacing twice with the same value is replacing once. */
  lemma ReplaceIdempotent<T>(c: Collection<T>, id: string, v: T)
    ensures ReplaceById(ReplaceById(c, id, v), id, v) == ReplaceById(c, id, v)
  {
  }

  lemma {:induction false} DeleteKeepsUniqueIds<T>(c: Collection<T>, id: string)
    requires UniqueIds(c)
    ensures UniqueIds(DeleteById(c, id))
    ensures forall d :: d in DeleteById(c, id) ==> d in c
    decreases |c|
  {
    if |c| > 0 {
      DeleteKeepsUniqueIds(c[1..], id);
      var rest := DeleteById(c[1..], id);
      if c[0].id != id {
        var r := [c[0]] + rest;
        forall i, j | 0 <= i < j < |r| ensures r[i].id != r[j].id {
          if i == 0 {
            assert r[j] in c[1..];
          }
        }
      }
    }
  }

  /** `FindById` looks at the first document, then at the rest. */
  lemma FindByIdFront<T>(c: Collection<T>, o: string)
    requires |c| > 0
    ensures FindById(c, o) == if c[0].id == o then Some(c[0].value) else FindById(c[1..], o)
  {
  }

  /** Deleting an id leaves every other document findable with the same value. */
  lemma {:induction false} FindAfterDelete<T>(c: Collection<T>, id: string, o: string)
    ensures FindById(DeleteById(c, id), o) == if o == id then None else FindById(c, o)
    decreases |c|
  {
    if |c| > 0 && o != id {
      FindAfterDelete(c[1..], id, o);
      FindByIdFront(c, o);
      var rest := DeleteById(c[1..], id);
      if c[0].id != id {
        var r := [c[0]] + rest;
        assert DeleteById(c, id) == r;
        assert r[0] == c[0] && r[1..] == rest;
        FindByIdFront(r, o);
      } else {
        assert DeleteById(c, id) == rest;
      }
    }
  }

  lemma InsertKeepsUniqueIds<T>(c: Collection<T>, id: string, v: T)
    requires UniqueIds(c) && !HasId(c, id)
    ensures UniqueIds(Insert(c, id, v))
    ensures FindById(Insert(c, id, v), id) == Some(v)
  {
    var r := Insert(c, id, v);
    assert r[|c|].id == id;
    FindByIdUnique(r, |c|);
  }
}

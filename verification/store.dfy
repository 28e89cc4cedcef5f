/**
 * A document collection with the four primitive operations the services use:
 * find by id, insert, replace by id and delete by id. The collection keeps
 * its documents in insertion order, which is the order an unsorted scan
 * returns them in.
 */
module Store {
  import opened Wrappers

  /** Document ids. The database generates them; the model receives them as parameters. */
  type Id = nat

  /** A stored document: its id, the creation and modification timestamps the schema maintains
      (`timestamps: true`), and the entity's own fields. */
  datatype Doc<F> = Doc(id: Id, createdAt: int, updatedAt: int, fields: F)

  predicate HasId<F>(s: seq<Doc<F>>, id: Id) {
    exists i :: 0 <= i < |s| && s[i].id == id
  }

  /** The database's guarantee that no two documents share an id. */
  predicate UniqueIds<F>(s: seq<Doc<F>>) {
    forall i, j :: 0 <= i < j < |s| ==> s[i].id != s[j].id
  }

  /** `findById`: the document with this id, or nothing. */
  function FindById<F>(s: seq<Doc<F>>, id: Id): (r: Option<Doc<F>>)
    ensures r.Some? <==> HasId(s, id)
    ensures r.Some? ==> r.value.id == id && exists i :: 0 <= i < |s| && s[i] == r.value
    decreases |s|
  {
    if |s| == 0 then None
    else if s[0].id == id then Some(s[0])
    else
      var r := FindById(s[1..], id);
      assert r.Some? ==> exists i :: 0 <= i < |s| && s[i] == r.value by {
        if r.Some? {
          var i :| 0 <= i < |s[1..]| && s[1..][i] == r.value;
          assert s[i + 1] == r.value;
        }
      }
      r
  }

  /** `create`: appends a document whose id is not yet taken. Afterwards it is found under its
      id, every other id finds what it found before, and ids stay unique. */
  function Insert<F>(s: seq<Doc<F>>, d: Doc<F>): (r: seq<Doc<F>>)
    requires !HasId(s, d.id)
    ensures |r| == |s| + 1
    ensures FindById(r, d.id) == Some(d)
    ensures forall x :: x != d.id ==> FindById(r, x) == FindById(s, x)
    ensures UniqueIds(s) ==> UniqueIds(r)
  {
    FindByIdAppend(s, [d]);
    s + [d]
  }

  /** Looking an id up in `s + t` looks in `s` first. */
  lemma {:induction false} FindByIdAppend<F>(s: seq<Doc<F>>, t: seq<Doc<F>>)
    ensures forall x :: FindById(s + t, x) == if HasId(s, x) then FindById(s, x) else FindById(t, x)
    decreases |s|
  {
    if |s| == 0 {
      assert s + t == t;
    } else {
      FindByIdAppend(s[1..], t);
      assert (s + t)[1..] == s[1..] + t;
      HasIdCons(s);
    }
  }

  /** `findByIdAndUpdate`: replaces the document with this id by `d`, which carries the same id.
      Afterwards `d` is found under the id, every other id finds what it found before, the
      collection keeps its size and ids stay unique. An unknown id changes nothing. */
  function ReplaceById<F>(s: seq<Doc<F>>, d: Doc<F>): (r: seq<Doc<F>>)
    ensures |r| == |s|
    ensures HasId(s, d.id) ==> FindById(r, d.id) == Some(d)
    ensures !HasId(s, d.id) ==> r == s
    ensures forall x :: x != d.id ==> FindById(r, x) == FindById(s, x)
    ensures forall x :: HasId(r, x) <==> HasId(s, x)
    ensures UniqueIds(s) ==> UniqueIds(r)
    decreases |s|
  {
    if |s| == 0 then []
    else if s[0].id == d.id then
      var r := [d] + s[1..];
      assert r[1..] == s[1..];
      HasIdCons(s);
      HasIdCons(r);
      UniqueIdsCons(s);
      UniqueIdsCons(r);
      r
    else
      var r := [s[0]] + ReplaceById(s[1..], d);
      assert r[1..] == ReplaceById(s[1..], d);
      HasIdCons(s);
      HasIdCons(r);
      UniqueIdsCons(s);
      UniqueIdsCons(r);
      r
  }

  /** With unique ids, replacing changes exactly the position holding the id. */
  lemma {:induction false} ReplaceByIdPointwise<F>(s: seq<Doc<F>>, d: Doc<F>)
    requires UniqueIds(s)
    ensures forall i :: 0 <= i < |s| ==> ReplaceById(s, d)[i] == if s[i].id == d.id then d else s[i]
    decreases |s|
  {
    if |s| > 0 {
      UniqueIdsCons(s);
      var r := ReplaceById(s, d);
      if s[0].id == d.id {
        assert !HasId(s[1..], d.id);
        forall i | 1 <= i < |s|
          ensures r[i] == s[i] && s[i].id != d.id
        {
          assert s[1..][i - 1] == s[i];
        }
      } else {
        ReplaceByIdPointwise(s[1..], d);
        forall i | 1 <= i < |s|
          ensures r[i] == if s[i].id == d.id then d else s[i]
        {
          assert s[1..][i - 1] == s[i];
          assert r[i] == ReplaceById(s[1..], d)[i - 1];
        }
      }
    }
  }

  /** `findByIdAndDelete`: removes the document with this id. Afterwards, when ids were unique,
      the id is no longer found; every other id finds what it found before; the collection is
      one shorter. An unknown id changes nothing. */
  function RemoveById<F>(s: seq<Doc<F>>, id: Id): (r: seq<Doc<F>>)
    ensures HasId(s, id) ==> |r| == |s| - 1
    ensures !HasId(s, id) ==> r == s
    ensures forall x :: x != id ==> FindById(r, x) == FindById(s, x)
    ensures forall x :: HasId(r, x) ==> HasId(s, x)
    ensures UniqueIds(s) ==> UniqueIds(r) && !HasId(r, id)
    decreases |s|
  {
    if |s| == 0 then []
    else if s[0].id == id then
      HasIdCons(s);
      UniqueIdsCons(s);
      s[1..]
    else
      var r := [s[0]] + RemoveById(s[1..], id);
      assert r[1..] == RemoveById(s[1..], id);
      HasIdCons(s);
      HasIdCons(r);
      UniqueIdsCons(s);
      UniqueIdsCons(r);
      r
  }

  /** An id occurs in a non-empty collection when it is the first document's or occurs in the rest. */
  lemma HasIdCons<F>(s: seq<Doc<F>>)
    requires |s| > 0
    ensures forall x :: HasId(s, x) <==> s[0].id == x || HasId(s[1..], x)
  {
    forall x | HasId(s, x) && s[0].id != x
      ensures HasId(s[1..], x)
    {
      var i :| 0 <= i < |s| && s[i].id == x;
      assert s[1..][i - 1].id == x;
    }
    forall x | HasId(s[1..], x)
      ensures HasId(s, x)
    {
      var i :| 0 <= i < |s[1..]| && s[1..][i].id == x;
      assert s[i + 1].id == x;
    }
  }

  /** Ids of a non-empty collection are unique when the rest's are and the first id does not
      occur in the rest. */
  lemma UniqueIdsCons<F>(s: seq<Doc<F>>)
    requires |s| > 0
    ensures UniqueIds(s) <==> UniqueIds(s[1..]) && !HasId(s[1..], s[0].id)
  {
    if UniqueIds(s[1..]) && !HasId(s[1..], s[0].id) {
      forall i, j | 0 <= i < j < |s|
        ensures s[i].id != s[j].id
      {
        assert s[j] == s[1..][j - 1];
        if i > 0 {
          assert s[i] == s[1..][i - 1];
        }
      }
    }
    if UniqueIds(s) {
      forall i | 0 <= i < |s[1..]|
        ensures s[1..][i].id != s[0].id
      {
        assert s[1..][i] == s[i + 1];
      }
    }
  }
}

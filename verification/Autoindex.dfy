/** The index of visible objects and its projection into synthesized directories. */
module Autoindex {
  import opened Wrappers
  import opened Text
  import opened Orders
  import opened Paths

  datatype VisibleObject = VisibleObject(path: string, digest: string, mediaType: string, size: nat)

  datatype DirectoryEntry = Directory(path: string) | File(item: VisibleObject)

  type Objects = map<string, VisibleObject>

  function NewObject(path: string, digest: string, mediaType: string, size: nat): Result<VisibleObject, PathError> {
    var relative :- ParseRelative(path);
    if IsDirectory(relative) then Err(Invalid) else Ok(VisibleObject(relative, digest, mediaType, size))
  }

  /** Two objects cannot be projected into one tree. */
  predicate Conflict(a: string, b: string) {
    a == b || Ancestor(a, b) || Ancestor(b, a)
  }

  /** Every key is the path of its object, and no file is an ancestor of another. */
  ghost predicate Projectable(objects: Objects) {
    && (forall p {:trigger ValidFile(p)} {:trigger objects[p]} | p in objects :: ValidFile(p) && objects[p].path == p)
    && (forall p, q {:trigger Conflict(p, q)} | p in objects && q in objects && p != q :: !Conflict(p, q))
  }

  /** `Index`: a mutable map from paths to objects. */
  class Index {
    var objects: Objects

    constructor ()
      ensures objects == map[]
    {
      objects := map[];
    }

    method Insert(item: VisibleObject) returns (r: Result<(), PathError>)
      requires ValidFile(item.path) && Projectable(objects)
      modifies this
      ensures r == Err(Duplicate) <==> item.path in old(objects)
      ensures r == Err(Collision) <==>
        item.path !in old(objects) && exists p | p in old(objects) :: Conflict(p, item.path)
      ensures r.Ok? || r == Err(Duplicate) || r == Err(Collision)
      ensures r.Ok? ==> objects == old(objects)[item.path := item]
      ensures r.Err? ==> objects == old(objects)
      ensures Projectable(objects)
    {
      var path := item.path;
      hide ValidRelative, Split, Increasing, Conflict, Projectable, TrimSlashes, StrictTotal;
      if path in objects {
        return Err(Duplicate);
      }
      TextStrictTotal();
      var keys := InOrder(TextLess, objects.Keys);
      var i := 0;
      while i < |keys|
        invariant 0 <= i <= |keys| && objects == old(objects)
        invariant forall k | 0 <= k < i :: !Conflict(keys[k], path)
      {
        assert keys[i] in objects.Keys;
        ConflictTest(objects, keys[i], path);
        var bare, existing := TrimSlashes(path), TrimSlashes(keys[i]);
        if existing == bare || bare + "/" <= existing || existing + "/" <= bare {
          return Err(Collision);
        }
        i := i + 1;
      }
      forall p | p in objects ensures !Conflict(p, path) {
        assert p in objects.Keys;
        assert p in keys;
      }
      ProjectableInsert(objects, item);
      objects := objects[path := item];
      return Ok(());
    }
  }

  /** The comparison of the trimmed spellings is the conflict test. */
  lemma ConflictTest(objects: Objects, existing: string, path: string)
    requires Projectable(objects) && existing in objects && ValidFile(path)
    ensures Conflict(existing, path) <==>
      (TrimSlashes(existing) == TrimSlashes(path)
        || TrimSlashes(path) + "/" <= TrimSlashes(existing)
        || TrimSlashes(existing) + "/" <= TrimSlashes(path))
  {
    assert ValidFile(existing);
    hide Split;
    FileSegments(path);
    FileSegments(existing);
  }

  lemma ProjectableInsert(objects: Objects, item: VisibleObject)
    requires Projectable(objects) && ValidFile(item.path)
    requires forall p | p in objects :: !Conflict(p, item.path)
    ensures Projectable(objects[item.path := item])
  {
    hide ValidRelative, Ancestor;
  }

  // ---- Building an index from a sequence of objects ----

  function InsertObject(objects: Objects, item: VisibleObject): Option<Objects> {
    if exists p | p in objects :: Conflict(p, item.path) then None
    else Some(objects[item.path := item])
  }

  function Build(sequence: seq<VisibleObject>): Option<Objects> {
    if sequence == [] then Some(map[]) else
      match Build(sequence[..|sequence| - 1])
      case None => None
      case Some(objects) => InsertObject(objects, sequence[|sequence| - 1])
  }

  ghost predicate ConflictFree(sequence: seq<VisibleObject>) {
    forall i, j | 0 <= i < |sequence| && 0 <= j < |sequence| && i != j ::
      !Conflict(sequence[i].path, sequence[j].path)
  }

  ghost predicate Holds(objects: Objects, sequence: seq<VisibleObject>) {
    && (forall p | p in objects :: objects[p].path == p && objects[p] in sequence)
    && (forall o | o in sequence :: o.path in objects && objects[o.path] == o)
  }

  lemma ConflictFreeSnoc(init: seq<VisibleObject>, last: VisibleObject)
    ensures ConflictFree(init + [last]) <==>
      ConflictFree(init) && forall o | o in init :: !Conflict(o.path, last.path)
  {
    var s := init + [last];
    if ConflictFree(s) {
      forall i, j | 0 <= i < |init| && 0 <= j < |init| && i != j ensures !Conflict(init[i].path, init[j].path) {
        assert s[i] == init[i] && s[j] == init[j];
      }
      forall o | o in init ensures !Conflict(o.path, last.path) {
        var i :| 0 <= i < |init| && init[i] == o;
        assert s[i] == o && s[|init|] == last;
      }
    }
    if ConflictFree(init) && forall o | o in init :: !Conflict(o.path, last.path) {
      forall i, j | 0 <= i < |s| && 0 <= j < |s| && i != j ensures !Conflict(s[i].path, s[j].path) {
        assert i < |init| ==> init[i] in init;
        assert j < |init| ==> init[j] in init;
      }
    }
  }

  /** Building succeeds exactly when no two objects conflict, and then holds exactly the objects. */
  lemma {:induction false} BuildSucceedsIff(sequence: seq<VisibleObject>)
    ensures Build(sequence).Some? <==> ConflictFree(sequence)
    ensures Build(sequence).Some? ==> Holds(Build(sequence).value, sequence)
  {
    if sequence != [] {
      var n := |sequence| - 1;
      var init, last := sequence[..n], sequence[n];
      assert sequence == init + [last];
      BuildSucceedsIff(init);
      ConflictFreeSnoc(init, last);
      if Build(init).Some? {
        InsertHolds(Build(init).value, init, last);
      }
    }
  }

  lemma InsertHolds(objects: Objects, init: seq<VisibleObject>, last: VisibleObject)
    requires Holds(objects, init)
    ensures InsertObject(objects, last).Some? <==> forall o | o in init :: !Conflict(o.path, last.path)
    ensures InsertObject(objects, last).Some? ==> Holds(InsertObject(objects, last).value, init + [last])
  {
    assert forall o | o in init :: o.path in objects;
    assert forall p | p in objects :: objects[p] in init;
  }

  lemma ConflictFreeTransfer(a: seq<VisibleObject>, b: seq<VisibleObject>)
    requires multiset(a) == multiset(b) && ConflictFree(a)
    ensures ConflictFree(b)
  {
    SameMembers(a, b);
    forall i, j | 0 <= i < |b| && 0 <= j < |b| && i != j ensures !Conflict(b[i].path, b[j].path) {
      if b[i] == b[j] {
        DistinctCount(b, if i < j then i else j, if i < j then j else i);
        var k, l := TwoOccurrences(a, b[i]);
        assert Conflict(a[k].path, a[l].path);
      } else {
        assert b[i] in a && b[j] in a;
      }
    }
  }

  lemma HoldsUnique(m: Objects, n: Objects, a: seq<VisibleObject>, b: seq<VisibleObject>)
    requires Holds(m, a) && Holds(n, b) && forall o :: o in a <==> o in b
    ensures m == n
  {
    forall p | p in m ensures p in n && n[p] == m[p] {
      assert m[p] in a;
    }
    forall p | p in n ensures p in m {
      assert n[p] in b;
    }
  }

  /** Any two orders of the same objects both fail, or both succeed with equal indexes. */
  lemma BuildIgnoresOrder(a: seq<VisibleObject>, b: seq<VisibleObject>)
    requires multiset(a) == multiset(b)
    ensures Build(a) == Build(b)
  {
    BuildSucceedsIff(a);
    BuildSucceedsIff(b);
    SameMembers(a, b);
    if ConflictFree(a) {
      ConflictFreeTransfer(a, b);
      HoldsUnique(Build(a).value, Build(b).value, a, b);
    } else if ConflictFree(b) {
      ConflictFreeTransfer(b, a);
    }
  }
}

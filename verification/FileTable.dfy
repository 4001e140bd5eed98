/** The global file table: file objects by handle, and an index of them by path. */
module FileTable {
  import opened HashTable
  import opened Sequences

  /** The characters of a path, without the zero that ends it. */
  type Path = seq<nat>

  /** A file object: its handle, its path if it has one, and everything else in it. */
  datatype File = File(handle: nat, path: Option<Path>, body: nat)

  /** The handle table, whose entries are addresses of file objects or null; the file objects; and the
      path index. */
  datatype Files = Files(handles: seq<nat>, objects: map<nat, File>, paths: map<Key, nat>)

  /** The key of a path: its characters and the zero that ends it. */
  function PathKey(path: Path): (key: Key)
    ensures |key| > 0
  {
    path + [0]
  }

  lemma PathKeyInjective(p: Path, q: Path)
    requires PathKey(p) == PathKey(q)
    ensures p == q
  {
    assert p == PathKey(p)[..|PathKey(p)| - 1];
    assert q == PathKey(q)[..|PathKey(q)| - 1];
  }

  // -------------------------------------------------------------------------------- operations

  /** file_table_open; the file object gets the address `a`. The handle is the next index. */
  function Open(t: Files, path: Option<Path>, body: nat, a: nat): Files {
    Files(t.handles + [a], t.objects[a := File(|t.handles|, path, body)],
          if path.Some? then t.paths[PathKey(path.value) := a] else t.paths)
  }

  /** The file object of a handle, if there is one. */
  function Get(t: Files, handle: nat): Option<nat> {
    if handle < |t.handles| && t.handles[handle] != NULL then Some(t.handles[handle]) else None
  }

  /** file_table_get_by_path. */
  function GetByPath(t: Files, path: Path): Option<nat> {
    if PathKey(path) in t.paths then Some(t.paths[PathKey(path)]) else None
  }

  ghost predicate Resolves(t: Files) {
    forall h :: 0 <= h < |t.handles| && t.handles[h] != NULL ==> t.handles[h] in t.objects
  }

  /** file_table_close: the path leaves the index and the handle is emptied, never reused. */
  function Close(t: Files, handle: nat): Files
    requires Resolves(t)
  {
    if Get(t, handle).None? then t
    else
      var a := t.handles[handle];
      var path := t.objects[a].path;
      Files(t.handles[handle := NULL], t.objects - {a}, if path.Some? then t.paths - {PathKey(path.value)} else t.paths)
  }

  // --------------------------------------------------------------------------------- invariant

  /** The file object at the address is open under the path. */
  ghost predicate OpenAs(t: Files, a: nat, path: Path) {
    a in t.objects && t.objects[a].path == Some(path)
  }

  /** Handles and file objects name one another. */
  ghost predicate Handled(t: Files) {
    && Resolves(t) && NULL !in t.objects
    && (forall a :: a in t.objects ==> t.objects[a].handle < |t.handles| && t.handles[t.objects[a].handle] == a)
    && (forall h :: 0 <= h < |t.handles| && t.handles[h] != NULL ==> t.objects[t.handles[h]].handle == h)
  }

  /** The index holds exactly the paths of the open files. */
  ghost predicate Indexed(t: Files) {
    && (forall a, p :: OpenAs(t, a, p) ==> PathKey(p) in t.paths && t.paths[PathKey(p)] == a)
    && (forall k :: k in t.paths ==> exists p :: PathKey(p) == k && OpenAs(t, t.paths[k], p))
  }

  ghost predicate Inv(t: Files) {
    Handled(t) && Indexed(t)
  }

  function Empty(): Files {
    Files([], map[], map[])
  }

  /** A path finds a file exactly when the file is open under it, and the file's handle resolves to the
      same object. */
  lemma FoundExactly(t: Files, path: Path, a: nat)
    requires Inv(t)
    ensures GetByPath(t, path) == Some(a) <==> OpenAs(t, a, path)
    ensures GetByPath(t, path) == Some(a) ==> Get(t, t.objects[a].handle) == Some(a)
    ensures GetByPath(t, path) == None <==> forall b :: !OpenAs(t, b, path)
  {
    if PathKey(path) in t.paths {
      var p :| PathKey(p) == PathKey(path) && OpenAs(t, t.paths[PathKey(path)], p);
      PathKeyInjective(p, path);
    }
  }

  /** An opened file is what was given, under the next handle; no other file or handle changes. */
  lemma OpensExactly(t: Files, path: Option<Path>, body: nat, a: nat)
    requires Handled(t) && a !in t.objects && a != NULL
    ensures var u := Open(t, path, body, a);
      && Get(u, |t.handles|) == Some(a) && u.objects.Keys == t.objects.Keys + {a}
      && u.objects[a].path == path && u.objects[a].body == body
      && (forall b :: b in t.objects ==> u.objects[b] == t.objects[b])
      && (forall h: nat :: h != |t.handles| ==> Get(u, h) == Get(t, h))
  {
  }

  /** A close takes away the file of its handle, and no other file or handle changes. */
  lemma ClosesExactly(t: Files, handle: nat)
    requires Handled(t)
    ensures var u := Close(t, handle);
      && (forall b :: b in u.objects <==> b in t.objects && Get(t, handle) != Some(b))
      && (forall b :: b in u.objects ==> u.objects[b] == t.objects[b])
      && (forall h: nat :: Get(u, h) == if h == handle then None else Get(t, h))
  {
  }

  lemma OpenHandles(t: Files, path: Option<Path>, body: nat, a: nat)
    requires Handled(t) && a !in t.objects && a != NULL
    ensures Handled(Open(t, path, body, a)) && Get(Open(t, path, body, a), |t.handles|) == Some(a)
  {
  }

  /** Opening a file keeps the index exact if and only if no open file has its path. */
  lemma OpenKeepsExactly(t: Files, path: Option<Path>, body: nat, a: nat)
    requires Inv(t) && a !in t.objects && a != NULL
    ensures Inv(Open(t, path, body, a)) <==> (path.Some? ==> GetByPath(t, path.value) == None)
  {
    hide Handled;
    var u := Open(t, path, body, a);
    OpenHandles(t, path, body, a);
    forall b, p ensures OpenAs(u, b, p) <==> if b == a then path == Some(p) else OpenAs(t, b, p) { }
    if path == None || GetByPath(t, path.value) == None {
      forall p | path.Some? && PathKey(p) == PathKey(path.value)
        ensures p == path.value
      {
        PathKeyInjective(p, path.value);
      }
      forall b, p | OpenAs(u, b, p) ensures PathKey(p) in u.paths && u.paths[PathKey(p)] == b {
      }
      forall k | k in u.paths ensures exists p :: PathKey(p) == k && OpenAs(u, u.paths[k], p) {
        if path.Some? && k == PathKey(path.value) {
          assert OpenAs(u, a, path.value);
        } else {
          var p :| PathKey(p) == k && OpenAs(t, t.paths[k], p);
          assert OpenAs(u, u.paths[k], p);
        }
      }
    } else {
      FoundExactly(t, path.value, t.paths[PathKey(path.value)]);
      assert OpenAs(u, t.paths[PathKey(path.value)], path.value);
    }
  }

  lemma CloseHandles(t: Files, handle: nat)
    requires Handled(t)
    ensures Handled(Close(t, handle)) && Get(Close(t, handle), handle) == None
  {
  }

  /** Closing a file keeps the index exact. */
  lemma CloseKeeps(t: Files, handle: nat)
    requires Inv(t)
    ensures Inv(Close(t, handle))
  {
    CloseHandles(t, handle);
    if Get(t, handle).Some? {
      hide Handled;
      var u, a := Close(t, handle), t.handles[handle];
      var path := t.objects[a].path;
      assert path.Some? ==> OpenAs(t, a, path.value);
      forall p | path.Some? && PathKey(p) == PathKey(path.value)
        ensures p == path.value
      {
        PathKeyInjective(p, path.value);
      }
      forall b, p ensures OpenAs(u, b, p) <==> b != a && OpenAs(t, b, p) { }
      forall b, p | OpenAs(u, b, p) ensures PathKey(p) in u.paths && u.paths[PathKey(p)] == b {
      }
      forall k | k in u.paths ensures exists p :: PathKey(p) == k && OpenAs(u, u.paths[k], p) {
        var p :| PathKey(p) == k && OpenAs(t, t.paths[k], p);
        assert t.paths[k] == a ==> path == Some(p);
        assert OpenAs(u, u.paths[k], p);
      }
    }
  }

  /** A second file under an open path hides the first, and closing either takes the path from both: the
      other one stays open, and is not found. */
  lemma ReopenedPathIsLost(t: Files, path: Path, a: nat, body: nat, b: nat, handle: nat)
    requires Inv(t) && OpenAs(t, a, path) && b !in t.objects && b != NULL
    requires handle == t.objects[a].handle || handle == |t.handles|
    ensures var u := Open(t, Some(path), body, b);
      && GetByPath(u, path) == Some(b) && OpenAs(u, a, path) && Resolves(u)
      && OpenAs(Close(u, handle), if handle == |t.handles| then a else b, path)
      && GetByPath(Close(u, handle), path) == None
  {
    hide Indexed;
    OpenHandles(t, Some(path), body, b);
  }

  // -------------------------------------------------------------------------------------- runs

  datatype Call = Opens(path: Option<Path>, body: nat, address: nat) | Closes(handle: nat)

  /** Addresses are fresh, and so are the paths. */
  ghost predicate Allowed(t: Files, c: Call) {
    match c
    case Opens(path, _, a) => a !in t.objects && a != NULL && (path.Some? ==> GetByPath(t, path.value) == None)
    case Closes(_) => Resolves(t)
  }

  ghost function After(t: Files, c: Call): Files
    requires Allowed(t, c)
  {
    match c
    case Opens(path, body, a) => Open(t, path, body, a)
    case Closes(handle) => Close(t, handle)
  }

  ghost predicate CanRun(t: Files, calls: seq<Call>)
    decreases |calls|
  {
    calls == [] || (Allowed(t, calls[0]) && CanRun(After(t, calls[0]), calls[1..]))
  }

  ghost function Ran(t: Files, calls: seq<Call>): Files
    requires CanRun(t, calls)
    decreases |calls|
  {
    if calls == [] then t else Ran(After(t, calls[0]), calls[1..])
  }

  lemma {:induction false} RunKeeps(t: Files, calls: seq<Call>)
    requires Inv(t) && CanRun(t, calls)
    ensures Inv(Ran(t, calls))
    decreases |calls|
  {
    hide Inv, Open, Close;
    if calls != [] {
      match calls[0] {
        case Opens(path, body, a) => OpenKeepsExactly(t, path, body, a);
        case Closes(handle) => CloseKeeps(t, handle);
      }
      RunKeeps(After(t, calls[0]), calls[1..]);
    }
  }

  /** Over any run of such calls that does not close it, a handle keeps its file, unchanged. */
  lemma {:induction false} HandleKeepsFile(t: Files, calls: seq<Call>, handle: nat, a: nat)
    requires Handled(t) && CanRun(t, calls) && Closes(handle) !in calls && Get(t, handle) == Some(a)
    ensures Get(Ran(t, calls), handle) == Some(a) && a in Ran(t, calls).objects
    ensures Ran(t, calls).objects[a] == t.objects[a]
    decreases |calls|
  {
    hide Handled, Open, Close, Get;
    if calls == [] {
      HandleResolves(t, handle, a);
    } else {
      HandleResolves(t, handle, a);
      match calls[0] {
        case Opens(path, body, b) =>
          OpenHandles(t, path, body, b);
          OpensExactly(t, path, body, b);
          HandleIsOld(t, handle);
        case Closes(h) =>
          CloseHandles(t, h);
          ClosesExactly(t, h);
      }
      HandleResolves(After(t, calls[0]), handle, a);
      HandleKeepsFile(After(t, calls[0]), calls[1..], handle, a);
    }
  }

  lemma HandleResolves(t: Files, handle: nat, a: nat)
    requires Handled(t) && Get(t, handle) == Some(a)
    ensures a in t.objects
  {
  }

  lemma HandleIsOld(t: Files, handle: nat)
    requires Get(t, handle).Some?
    ensures handle < |t.handles|
  {
  }

  /** Over any run of opens with fresh paths and of closes, a path finds exactly the file that is still
      open under it. */
  lemma AlwaysFoundExactly(calls: seq<Call>, path: Path, a: nat)
    requires CanRun(Empty(), calls)
    ensures GetByPath(Ran(Empty(), calls), path) == Some(a) <==> OpenAs(Ran(Empty(), calls), a, path)
  {
    RunKeeps(Empty(), calls);
    FoundExactly(Ran(Empty(), calls), path, a);
  }

  // ----------------------------------------------------------------------------------- in place

  class GlobalFileTable {
    /** The handle table: addresses of file objects, null where a file was closed. */
    var handles: seq<nat>
    var objects: map<nat, File>
    const pathTable: Table

    ghost predicate Valid()
      reads this, pathTable, pathTable.buckets
    {
      pathTable.Valid() && Handled(View())
    }

    ghost function View(): Files
      reads this, pathTable
    {
      Files(handles, objects, pathTable.contents)
    }

    /** file_table_init, with 64 buckets. */
    constructor ()
      ensures Valid() && View() == Empty() && fresh(pathTable) && fresh(pathTable.buckets)
    {
      handles, objects := [], map[];
      assert 64 == Bits.Pow2(6);
      pathTable := new Table(64, 6);
    }

    /** file_table_open; `a` and `room` are the addresses the file object and a new index node get. */
    method OpenFile(path: Option<Path>, body: nat, a: nat, room: nat) returns (handle: nat)
      requires Valid() && a !in objects && a != NULL && room !in pathTable.nodes && room != NULL
      modifies this, pathTable, pathTable.buckets
      ensures Valid() && View() == Open(old(View()), path, body, a) && handle == |old(handles)|
    {
      OpenHandles(View(), path, body, a);
      handle := |handles|;
      handles := handles + [a];
      if path.Some? {
        pathTable.Set(path.value + [0], a, room);
      }
      objects := objects[a := File(handle, path, body)];
    }

    /** file_table_close. */
    method CloseFile(handle: nat) returns (ok: bool)
      requires Valid()
      modifies this, pathTable, pathTable.buckets
      ensures Valid() && View() == Close(old(View()), handle) && (ok <==> Get(old(View()), handle).Some?)
    {
      if handle >= |handles| { return false; }
      var a := handles[handle];
      if a == NULL { return false; }
      CloseHandles(View(), handle);
      var path := objects[a].path;
      if path.Some? {
        var removed := pathTable.Remove(path.value + [0]);
      }
      handles := handles[handle := NULL];
      objects := objects - {a};
      return true;
    }

    /** file_table_get: a handle that was closed resolves to null. */
    method GetFile(handle: nat) returns (file: Option<nat>)
      requires Valid()
      ensures file.Some? <==> handle < |handles|
      ensures Get(View(), handle) == if file.Some? && file.value != NULL then file else None
    {
      return if handle < |handles| then Some(handles[handle]) else None;
    }

    /** file_table_get_by_path. */
    method GetFileByPath(path: Path) returns (file: Option<nat>)
      requires Valid()
      ensures file == GetByPath(View(), path)
    {
      file := pathTable.Get(path + [0]);
    }
  }
}

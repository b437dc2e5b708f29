/** The tree of objects in src/instance.cpp: objects are found by path, and walking to a path creates what is missing
    on the way. Objects are never deleted here. */
module ObjectTree {
  import opened Wrappers
  import opened Bytes
  import opened Handles
  import Store
  import StoreLaws
  import Storage

  type Path = Store.Path

  const CAPACITY := 256
  const ROOT := 0
  const SLASH: byte := 0x2F

  datatype ObjectData = ObjectData(name: Path, path: Path)

  /** A handle, or the exception that is thrown instead. */
  datatype Result =
    | Handle(handle: nat)
    | InvalidPath
    | InvalidName
    | NoParent
    | NoSpace
    | NoSuchHandle
    | OutOfRange

  // ---------------------------------------------------------------- paths

  predicate NoSlash(s: Path) {
    forall i | 0 <= i < |s| :: s[i] != SLASH
  }

  /** The first '/' from `pos` on, or the length of the path. */
  function FindSlash(path: Path, pos: nat): (i: nat)
    ensures pos <= |path| ==> pos <= i <= |path|
    ensures i < |path| ==> path[i] == SLASH
    ensures forall j | pos <= j < i && j < |path| :: path[j] != SLASH
    decreases |path| - pos
  {
    if pos >= |path| then |path| else if path[pos] == SLASH then pos else FindSlash(path, pos + 1)
  }

  /** The position of the last '/', or -1. */
  function LastSlash(path: Path): (i: int)
    ensures -1 <= i < |path|
    ensures i >= 0 ==> path[i] == SLASH
    ensures forall j | i < j < |path| :: path[j] != SLASH
  {
    if path == [] then -1
    else if path[|path| - 1] == SLASH then |path| - 1
    else LastSlash(path[..|path| - 1])
  }

  function ParentPath(path: Path): Option<Path> {
    if LastSlash(path) < 0 then None else Some(path[..LastSlash(path)])
  }

  function PathName(path: Path): Path {
    if LastSlash(path) < 0 then [] else path[LastSlash(path) + 1..]
  }

  function ChildPath(parent: Path, name: Path): Path {
    parent + [SLASH] + name
  }

  /** A child's path gives back its parent's path and its name. */
  lemma ChildPathSplits(parent: Path, name: Path)
    requires NoSlash(name)
    ensures ParentPath(ChildPath(parent, name)) == Some(parent) && PathName(ChildPath(parent, name)) == name
  {
    var path := ChildPath(parent, name);
    assert LastSlash(path) == |parent| by {
      assert path[|parent|] == SLASH;
      assert forall j | |parent| < j < |path| :: path[j] == name[j - |parent| - 1];
    }
    assert path[..|parent|] == parent && path[|parent| + 1..] == name;
  }

  predicate ValidName(name: Path) {
    name != [] && NoSlash(name)
  }

  // ---------------------------------------------------------------- the tree

  datatype Tree = Tree(objects: seq<ObjectData>, index: map<Path, nat>)

  const Empty := Tree([ObjectData([], [])], map[])

  function Child(t: Tree, parent: nat, name: Path): (Tree, Result) {
    if parent >= |t.objects| then (t, NoSuchHandle)
    else
      var path := ChildPath(t.objects[parent].path, name);
      if path in t.index then (t, Handle(t.index[path]))
      else if |t.objects| >= CAPACITY then (t, NoSpace)
      else (Tree(t.objects + [ObjectData(name, path)], t.index[path := |t.objects|]), Handle(|t.objects|))
  }

  /** The walk along a path, standing at `pos` with the object `current`. The very first character is never looked
      at. */
  function Walk(t: Tree, path: Path, pos: nat, current: nat): (Tree, Result)
    requires pos <= |path|
    decreases |path| - pos
  {
    if pos + 1 > |path| then (t, OutOfRange)
    else
      var index := FindSlash(path, pos + 1);
      var name := path[pos + 1..index];
      if index < |path| then
        var (t', r) := Child(t, current, name);
        if r.Handle? then Walk(t', path, index, r.handle) else (t', r)
      else
        if name != [] then Child(t, current, name)
        else if current == ROOT then (t, Handle(ROOT))
        else (t, InvalidPath)
  }

  function GetObject(t: Tree, path: Path): (Tree, Result) {
    if path == [] then (t, Handle(ROOT)) else Walk(t, path, 0, ROOT)
  }

  function GetParent(t: Tree, h: nat): Result {
    if h >= |t.objects| then NoSuchHandle
    else
      match ParentPath(t.objects[h].path)
      case None => NoParent
      case Some(path) =>
        if path == [] then Handle(ROOT)
        else if path in t.index then Handle(t.index[path])
        else NoSuchHandle  // the source asserts that this does not happen
  }

  // ---------------------------------------------------------------- what every run keeps

  ghost predicate Inv(t: Tree) {
    && 0 < |t.objects| <= CAPACITY && t.objects[ROOT] == ObjectData([], [])
    && (forall p | p in t.index ::
          && 0 < t.index[p] < |t.objects| && t.objects[t.index[p]].path == p
          && ParentPath(p).Some? && (ParentPath(p).value == [] || ParentPath(p).value in t.index))
    && (forall h | 0 < h < |t.objects| ::
          && t.objects[h].path in t.index && t.index[t.objects[h].path] == h
          && t.objects[h].name == PathName(t.objects[h].path))
  }

  /** Objects stay what and where they are. */
  ghost predicate Extends(t: Tree, t': Tree) {
    && t.objects <= t'.objects
    && forall p | p in t.index :: p in t'.index && t'.index[p] == t.index[p]
  }

  lemma EmptyOk()
    ensures Inv(Empty)
  {
  }

  lemma ChildKeeps(t: Tree, parent: nat, name: Path)
    requires Inv(t) && parent < |t.objects| && NoSlash(name)
    ensures
      var (t', r) := Child(t, parent, name);
      && Inv(t') && Extends(t, t')
      && (r == NoSpace ==> |t.objects| == CAPACITY)
      && (r == NoSpace || (r.Handle? && 0 < r.handle < |t'.objects|
                           && t'.objects[r.handle].path == ChildPath(t.objects[parent].path, name)))
  {
    var path := ChildPath(t.objects[parent].path, name);
    ChildPathSplits(t.objects[parent].path, name);
    hide ParentPath, PathName, ChildPath, NoSlash;
    if path !in t.index && |t.objects| < CAPACITY {
      NewObjectOk(t, parent, name, path);
    }
  }

  lemma NewObjectOk(t: Tree, parent: nat, name: Path, path: Path)
    requires Inv(t) && parent < |t.objects| < CAPACITY && path !in t.index && path != []
    requires ParentPath(path) == Some(t.objects[parent].path) && PathName(path) == name
    ensures
      var t' := Tree(t.objects + [ObjectData(name, path)], t.index[path := |t.objects|]);
      Inv(t') && Extends(t, t')
  {
    hide ParentPath, PathName;
  }

  /** The path as the tree stores it: whatever stands first counts as the separator. */
  function Rooted(path: Path): Path
    requires path != []
  {
    [SLASH] + path[1..]
  }

  /** The part of the path that leads to the object the walk stands at. */
  function Prefix(path: Path, pos: nat): Path
    requires path != [] && pos <= |path|
  {
    if pos == 0 then [] else Rooted(path)[..pos]
  }

  /** What one step of the walk finds: the name of a child of the object for the part up to `pos`. */
  lemma StepFacts(path: Path, pos: nat)
    requires pos < |path| && (pos > 0 ==> path[pos] == SLASH)
    ensures
      var index := FindSlash(path, pos + 1);
      && pos < index <= |path| && NoSlash(path[pos + 1..index])
      && Prefix(path, index) == ChildPath(Prefix(path, pos), path[pos + 1..index])
      && (index < |path| ==> path[index] == SLASH && |Rooted(path)| == |path| && Rooted(path)[index] == SLASH
                             && Prefix(path, index) == Rooted(path)[..index])
      && (index == |path| ==>
            && Prefix(path, index) == Rooted(path)
            && (path[pos + 1..index] == [] <==> |path| == 1 || path[|path| - 1] == SLASH))
      && (pos > 0 <==> Prefix(path, pos) != [])
  {
    var index := FindSlash(path, pos + 1);
    StepName(path, pos);
    StepPrefix(path, pos, index);
    hide FindSlash, ChildPath, NoSlash;
    assert Rooted(path)[..|path|] == Rooted(path);
    if index == |path| && pos + 1 < |path| {
      assert path[pos + 1..index] != [];
    }
  }

  lemma StepName(path: Path, pos: nat)
    requires pos < |path|
    ensures
      var index := FindSlash(path, pos + 1);
      && pos < index <= |path| && NoSlash(path[pos + 1..index])
      && (index < |path| ==> path[index] == SLASH)
      && (index == |path| && pos + 1 < |path| ==> path[|path| - 1] != SLASH)
  {
    var index := FindSlash(path, pos + 1);
    var name := path[pos + 1..index];
    forall i | 0 <= i < |name| ensures name[i] != SLASH {
      assert name[i] == path[pos + 1 + i];
    }
  }

  lemma StepPrefix(path: Path, pos: nat, index: nat)
    requires pos < index <= |path| && (pos > 0 ==> path[pos] == SLASH)
    ensures Prefix(path, index) == ChildPath(Prefix(path, pos), path[pos + 1..index])
  {
    var rooted := Rooted(path);
    assert rooted[pos] == SLASH;
    assert rooted[pos + 1..index] == path[pos + 1..index];
    assert rooted[..index] == rooted[..pos] + [rooted[pos]] + rooted[pos + 1..index];
  }

  lemma ExtendsTrans(a: Tree, b: Tree, c: Tree)
    requires Extends(a, b) && Extends(b, c)
    ensures Extends(a, c)
  {
  }

  lemma ExtendsSelf(t: Tree)
    ensures Extends(t, t)
  {
  }

  lemma StillFull(t: Tree, t': Tree)
    requires Inv(t) && Inv(t') && Extends(t, t')
    ensures |t.objects| == CAPACITY ==> |t'.objects| == CAPACITY
  {
  }

  /** The exact outcome of a walk: with a character or less to look at it ends at the root; a path that ends in a
      separator is refused, though what lies on the way has been created; any other path leads to the object stored
      under it. Only a full table gets in the way. */
  lemma {:induction false} WalkResult(t: Tree, path: Path, pos: nat, current: nat)
    requires Inv(t) && path != [] && pos < |path| && current < |t.objects|
    requires t.objects[current].path == Prefix(path, pos)
    requires pos > 0 ==> path[pos] == SLASH
    ensures
      var (t', r) := Walk(t, path, pos, current);
      && Inv(t') && Extends(t, t')
      && (r == NoSpace ==> |t'.objects| == CAPACITY)
      && (r != NoSpace ==>
            if |path| == 1 then r == Handle(ROOT) && t' == t
            else if path[|path| - 1] == SLASH then r == InvalidPath
            else r.Handle? && 0 < r.handle < |t'.objects| && t'.objects[r.handle].path == Rooted(path))
    decreases |path| - pos
  {
    var index := FindSlash(path, pos + 1);
    var name := path[pos + 1..index];
    StepFacts(path, pos);
    if index == |path| {
      WalkEnds(t, path, pos, current);
    } else {
      ChildKeeps(t, current, name);
      hide Inv, Child, FindSlash, Rooted, ChildPath, NoSlash, Prefix;
      var (t', r) := Child(t, current, name);
      StillFull(t, t');
      if r.Handle? {
        WalkResult(t', path, index, r.handle);
        ExtendsTrans(t, t', Walk(t', path, index, r.handle).0);
      }
    }
  }

  lemma WalkEnds(t: Tree, path: Path, pos: nat, current: nat)
    requires Inv(t) && path != [] && pos < |path| && current < |t.objects|
    requires t.objects[current].path == Prefix(path, pos)
    requires pos > 0 ==> path[pos] == SLASH
    requires FindSlash(path, pos + 1) == |path|
    ensures
      var (t', r) := Walk(t, path, pos, current);
      && Inv(t') && Extends(t, t')
      && (r == NoSpace ==> |t'.objects| == CAPACITY)
      && (r != NoSpace ==>
            if |path| == 1 then r == Handle(ROOT) && t' == t
            else if path[|path| - 1] == SLASH then r == InvalidPath
            else r.Handle? && 0 < r.handle < |t'.objects| && t'.objects[r.handle].path == Rooted(path))
  {
    var name := path[pos + 1..|path|];
    StepFacts(path, pos);
    RootOnly(t, current);
    ExtendsSelf(t);
    ChildKeeps(t, current, name);
    hide Inv, Child, FindSlash, Rooted, ChildPath, NoSlash, Prefix;
    StillFull(t, Child(t, current, name).0);
  }

  /** Only the root has an empty path. */
  lemma RootOnly(t: Tree, h: nat)
    requires Inv(t) && h < |t.objects|
    ensures t.objects[h].path == [] <==> h == ROOT
  {
  }

  /** A walk to a known path creates nothing and finds the object it is known by. */
  lemma {:induction false} WalkKnown(t: Tree, path: Path, pos: nat, current: nat)
    requires Inv(t) && |path| > 1 && path[|path| - 1] != SLASH && pos < |path| && current < |t.objects|
    requires t.objects[current].path == Prefix(path, pos)
    requires pos > 0 ==> path[pos] == SLASH
    requires Rooted(path) in t.index
    ensures Walk(t, path, pos, current) == (t, Handle(t.index[Rooted(path)]))
    decreases |path| - pos
  {
    var index := FindSlash(path, pos + 1);
    var rooted, name := Rooted(path), path[pos + 1..index];
    StepFacts(path, pos);
    hide FindSlash, Rooted, ChildPath, NoSlash, Prefix, LastSlash;
    if index < |path| {
      PrefixKnown(t, rooted, index);
      KnownObject(t, rooted[..index]);
      ChildKnown(t, current, name, rooted[..index]);
      hide Inv, Child;
      WalkKnown(t, path, index, t.index[rooted[..index]]);
    } else {
      ChildKnown(t, current, name, rooted);
    }
  }

  lemma ChildKnown(t: Tree, current: nat, name: Path, p: Path)
    requires current < |t.objects| && p == ChildPath(t.objects[current].path, name) && p in t.index
    ensures Child(t, current, name) == (t, Handle(t.index[p]))
  {
  }

  lemma KnownObject(t: Tree, p: Path)
    requires Inv(t) && p in t.index
    ensures t.index[p] < |t.objects| && t.objects[t.index[p]].path == p
  {
  }

  lemma ParentKnown(t: Tree, p: Path)
    requires Inv(t) && p in t.index
    ensures ParentPath(p).Some? && (ParentPath(p).value == [] || ParentPath(p).value in t.index)
  {
  }

  /** The index is closed under going up: every prefix that ends before a separator is known. */
  lemma {:induction false} PrefixKnown(t: Tree, p: Path, index: nat)
    requires Inv(t) && p in t.index && 0 < index < |p| && p[index] == SLASH
    ensures p[..index] in t.index
    decreases |p|
  {
    hide Inv;
    ParentKnown(t, p);
    var k := LastSlash(p);
    assert index <= k;
    var parent := ParentPath(p).value;
    assert parent == p[..k];
    if index < k {
      assert parent[..index] == p[..index];
      PrefixKnown(t, parent, index);
    }
  }

  /** A name ends before position `i` of a path. */
  predicate EndsName(path: Path, i: nat)
    requires i <= |path|
  {
    if i < |path| then path[i] == SLASH else |path| > 1 && path[|path| - 1] != SLASH
  }

  /** The paths of the objects that a walk beyond position `pos` asks for and the tree does not have. */
  ghost function Missing(t: Tree, path: Path, pos: nat): set<Path>
    requires path != [] && pos <= |path|
  {
    set i | pos < i <= |path| && EndsName(path, i) && Rooted(path)[..i] !in t.index :: Rooted(path)[..i]
  }

  /** The next name that ends beyond `pos` is the one that the walk goes to. */
  lemma MissingStep(t: Tree, path: Path, pos: nat)
    requires path != [] && pos < |path|
    ensures
      var index := FindSlash(path, pos + 1);
      && pos < index <= |path|
      && Missing(t, path, pos)
         == (if EndsName(path, index) && Rooted(path)[..index] !in t.index then {Rooted(path)[..index]} else {})
            + Missing(t, path, index)
      && Rooted(path)[..index] !in Missing(t, path, index)
  {
    var index := FindSlash(path, pos + 1);
    forall p | p in Missing(t, path, index) ensures p != Rooted(path)[..index] {
      var i: nat :| index < i <= |path| && EndsName(path, i) && p == Rooted(path)[..i];
      assert |p| == i;
    }
  }

  /** Making an object for one prefix makes none for a longer one. */
  lemma MissingAfter(t: Tree, t': Tree, path: Path, index: nat)
    requires path != [] && index <= |path|
    requires forall p :: p in t'.index <==> p in t.index || p == Rooted(path)[..index]
    ensures Missing(t', path, index) == Missing(t, path, index)
  {
    forall i | index < i <= |path| ensures Rooted(path)[..i] in t'.index <==> Rooted(path)[..i] in t.index {
      assert |Rooted(path)[..i]| == i;
    }
  }

  /** `missing` is what has been added to the tree, or what there was no room for. */
  ghost predicate Grown(t: Tree, t': Tree, r: Result, missing: set<Path>) {
    && |t.objects| <= CAPACITY
    && (r == NoSpace <==> |t.objects| + |missing| > CAPACITY)
    && (r == NoSpace ==> |t'.objects| == CAPACITY)
    && (r != NoSpace ==>
          && (forall p :: p in t'.index <==> p in t.index || p in missing)
          && |t'.objects| == |t.objects| + |missing|)
  }

  lemma GrownSelf(t: Tree, r: Result)
    requires Inv(t) && r != NoSpace
    ensures Grown(t, t, r, {})
  {
  }

  lemma GrownThen(t: Tree, t1: Tree, r1: Result, t2: Tree, r2: Result, new1: set<Path>, new2: set<Path>)
    requires Grown(t, t1, r1, new1) && r1 != NoSpace && Grown(t1, t2, r2, new2) && new1 !! new2
    ensures Grown(t, t2, r2, new1 + new2)
  {
    assert |new1 + new2| == |new1| + |new2|;
  }

  lemma ChildGrows(t: Tree, parent: nat, name: Path, path: Path)
    requires parent < |t.objects| <= CAPACITY && path == ChildPath(t.objects[parent].path, name)
    ensures
      var (t', r) := Child(t, parent, name);
      && Grown(t, t', r, if path in t.index then {} else {path})
      && (r == NoSpace ==> path !in t.index && |t.objects| == CAPACITY)
      && (r != NoSpace ==> forall p :: p in t'.index <==> p in t.index || p == path)
  {
    hide ChildPath;
  }

  /** No room for one object is no room for more. */
  lemma NoRoom(t: Tree, t': Tree, r: Result, one: set<Path>, more: set<Path>)
    requires Grown(t, t', r, one) && r == NoSpace && one !! more
    ensures Grown(t, t', r, one + more)
  {
    assert |one + more| == |one| + |more|;
  }

  /** What a walk adds to the tree, exactly: the objects on the way that were missing, no more and no fewer. The table is
      too small if and only if there is no room for all of them. */
  lemma {:induction false} WalkRoomIff(t: Tree, path: Path, pos: nat, current: nat)
    requires Inv(t) && path != [] && pos < |path| && current < |t.objects|
    requires t.objects[current].path == Prefix(path, pos)
    requires pos > 0 ==> path[pos] == SLASH
    ensures
      var (t', r) := Walk(t, path, pos, current);
      Grown(t, t', r, Missing(t, path, pos))
    decreases |path| - pos
  {
    hide Inv, Child, FindSlash, Rooted, ChildPath, NoSlash, Prefix, Missing, Grown, Walk;
    var index := FindSlash(path, pos + 1);
    var name := path[pos + 1..index];
    StepFacts(path, pos);
    MissingStep(t, path, pos);
    if index == |path| {
      WalkEndsRoom(t, path, pos, current);
    } else {
      var at := Rooted(path)[..index];
      Bounded(t);
      WalkStep(t, path, pos, current);
      ChildGrows(t, current, name, at);
      ChildKeeps(t, current, name);
      var (t1, r) := Child(t, current, name);
      var one, more := if at in t.index then {} else {at}, Missing(t, path, index);
      assert Missing(t, path, pos) == one + more;
      if r.Handle? {
        MissingAfter(t, t1, path, index);
        WalkRoomIff(t1, path, index, r.handle);
        GrownThen(t, t1, r, Walk(t1, path, index, r.handle).0, Walk(t1, path, index, r.handle).1, one, more);
      } else {
        NoRoom(t, t1, r, one, more);
      }
    }
  }

  lemma Bounded(t: Tree)
    requires Inv(t)
    ensures |t.objects| <= CAPACITY
  {
  }

  lemma WalkStep(t: Tree, path: Path, pos: nat, current: nat)
    requires pos < |path| && FindSlash(path, pos + 1) < |path|
    ensures
      var index := FindSlash(path, pos + 1);
      var (t', r) := Child(t, current, path[pos + 1..index]);
      Walk(t, path, pos, current) == if r.Handle? then Walk(t', path, index, r.handle) else (t', r)
  {
    hide Child;
  }

  lemma WalkEndsRoom(t: Tree, path: Path, pos: nat, current: nat)
    requires Inv(t) && path != [] && pos < |path| && current < |t.objects|
    requires t.objects[current].path == Prefix(path, pos)
    requires pos > 0 ==> path[pos] == SLASH
    requires FindSlash(path, pos + 1) == |path|
    ensures
      var (t', r) := Walk(t, path, pos, current);
      Grown(t, t', r, Missing(t, path, pos))
  {
    var name := path[pos + 1..|path|];
    StepFacts(path, pos);
    MissingStep(t, path, pos);
    assert Missing(t, path, |path|) == {};
    assert Rooted(path)[..|path|] == Rooted(path);
    ChildGrows(t, current, name, Rooted(path));
    GrownSelf(t, Handle(ROOT));
    GrownSelf(t, InvalidPath);
    hide Inv, Child, FindSlash, Rooted, ChildPath, NoSlash, Prefix, Missing, Grown;
  }

  /** What looking up a path adds to the tree, and when there is no room for it. */
  lemma GetObjectRoomIff(t: Tree, path: Path)
    requires Inv(t) && path != []
    ensures
      var (t', r) := GetObject(t, path);
      && (r == NoSpace <==> |t.objects| + |Missing(t, path, 0)| > CAPACITY)
      && (r != NoSpace ==>
            forall p :: p in t'.index <==> p in t.index || p in Missing(t, path, 0))
  {
    WalkRoomIff(t, path, 0, ROOT);
  }

  /** Looking up a path: see `WalkResult`. */
  lemma GetObjectResult(t: Tree, path: Path)
    requires Inv(t)
    ensures
      var (t', r) := GetObject(t, path);
      && Inv(t') && Extends(t, t')
      && (r == NoSpace ==> |t'.objects| == CAPACITY)
      && (r != NoSpace ==>
            if |path| <= 1 then r == Handle(ROOT) && t' == t
            else if path[|path| - 1] == SLASH then r == InvalidPath
            else r.Handle? && 0 < r.handle < |t'.objects| && t'.objects[r.handle].path == Rooted(path))
  {
    if path != [] {
      WalkResult(t, path, 0, ROOT);
    }
  }

  /** Asking again, at any later time, finds the same object and changes nothing. */
  lemma GetObjectAgain(t: Tree, path: Path, later: Tree)
    requires Inv(t) && GetObject(t, path).1.Handle?
    requires Inv(later) && Extends(GetObject(t, path).0, later)
    ensures GetObject(later, path) == (later, GetObject(t, path).1)
  {
    GetObjectResult(t, path);
    if |path| > 1 {
      WalkKnown(later, path, 0, ROOT);
    } else if path != [] {
      WalkResult(later, path, 0, ROOT);
    }
  }

  /** Every object but the root has a parent in the index: the assertion in the source holds. */
  lemma ParentExists(t: Tree, h: nat)
    requires Inv(t) && h < |t.objects|
    ensures GetParent(t, h) == NoParent <==> h == ROOT
    ensures h != ROOT ==> GetParent(t, h).Handle? && GetParent(t, h).handle < |t.objects|
                          && ParentPath(t.objects[h].path)
                             == Some(t.objects[GetParent(t, h).handle].path)
  {
  }

  /** The parent of the object of a path is the object of the parent's path, exactly when that is not a path that ends
      in a separator; for those the walk turns back to the root or refuses. A path need not begin with a separator:
      whatever its first character is, it is taken for one. */
  lemma ParentOfObjectIff(t: Tree, path: Path)
    requires Inv(t) && |path| > 1 && path[|path| - 1] != SLASH
    requires GetObject(t, path).1.Handle?
    ensures
      var (t', r) := GetObject(t, path);
      var up := ParentPath(Rooted(path));
      && up.Some?
      && (GetObject(t', up.value) == (t', GetParent(t', r.handle))
          <==> up.value == [] || up.value[|up.value| - 1] != SLASH)
  {
    GetObjectResult(t, path);
    var (t', r) := GetObject(t, path);
    ParentExists(t', r.handle);
    UpwardsIff(t', Rooted(path));
  }

  lemma UpwardsIff(t: Tree, path: Path)
    requires Inv(t) && |path| > 1 && path[0] == SLASH && path[|path| - 1] != SLASH && path in t.index
    ensures
      var up := ParentPath(path);
      && up.Some?
      && (GetObject(t, up.value) == (t, GetParent(t, t.index[path]))
          <==> up.value == [] || up.value[|up.value| - 1] != SLASH)
  {
    KnownObject(t, path);
    ParentExists(t, t.index[path]);
    var up := ParentPath(path).value;
    if up != [] {
      assert up in t.index && up[0] == SLASH;
      hide Inv, Walk, LastSlash, GetParent, GetObject;
      UpIff(t, up);
    }
  }

  lemma RootIsEmpty(t: Tree)
    requires Inv(t)
    ensures |t.objects| > 0 && t.objects[ROOT].path == []
    ensures forall p | p in t.index :: t.index[p] < |t.objects| && t.objects[t.index[p]].path == p
  {
  }

  lemma UpIff(t: Tree, up: Path)
    requires Inv(t) && up in t.index && up != [] && up[0] == SLASH
    ensures GetObject(t, up) == (t, Handle(t.index[up])) <==> up[|up| - 1] != SLASH
  {
    RootIsEmpty(t);
    hide Inv, Walk, LastSlash;
    assert Rooted(up) == up;
    if up[|up| - 1] != SLASH {
      WalkKnown(t, up, 0, ROOT);
    } else {
      GetObjectResult(t, up);
    }
  }

  // ---------------------------------------------------------------- entries

  function EntryIn(st: Store.State, path: Path): (Store.State, Result) {
    var (st', h, status) := Store.GetOrCreateEntry(st, path);
    (st', match status case Ok => Handle(h) case NoSpace => NoSpace case _ => NoSuchHandle)
  }

  /** The walk to an entry starts without the special case for the empty path that looking up an object has: for an
      entry right below the root it reads beyond the end of the parent's path, which throws. */
  function EntryOf(t: Tree, st: Store.State, path: Path): (Tree, Store.State, Result) {
    match ParentPath(path)
    case None => (t, st, InvalidPath)
    case Some(up) =>
      var (t', r) := Walk(t, up, 0, ROOT);
      if !r.Handle? then (t', st, r)
      else
        var (st', r') := EntryIn(st, path);
        (t', st', r')
  }

  /** A stored path is found or made, unless it is new and the store is full. */
  lemma EntryInIff(st: Store.State, path: Path)
    requires Store.Inv(st)
    ensures
      var (st', r) := EntryIn(st, path);
      && Store.Inv(st') && StoreLaws.Extends(st, st')
      && (r == NoSpace <==> path !in st.paths && |st.entries| == Store.CAPACITY)
      && (r == NoSpace ==> st' == st)
      && (r != NoSpace ==>
            && r.Handle? && r.handle < |st'.entries| && st'.entries[r.handle].path == path
            && path in st'.paths && st'.paths[path] == r.handle)
  {
    StoreLaws.LocateKeeps(st, path);
    StoreLaws.LocateExtends(st, path);
    hide Store.Inv, StoreLaws.Extends;
  }

  /** An entry can have this path above it: one that is neither empty nor ends in a separator, or any one character. */
  predicate Usable(up: Path) {
    up != [] && (|up| == 1 || up[|up| - 1] != SLASH)
  }

  /** Which paths have entries: those whose parent's path is usable, unless there is no room for the objects on the way
      or for the entry. The entry is stored under just that path; its parent's object, if it has one, is in the tree, and
      no object is made that is not on the way. */
  lemma EntryOfIff(t: Tree, st: Store.State, path: Path)
    requires Inv(t) && Store.Inv(st)
    ensures
      var (t', st', r) := EntryOf(t, st, path);
      var up := ParentPath(path);
      && Inv(t') && Extends(t, t') && Store.Inv(st') && StoreLaws.Extends(st, st')
      && (r == NoSpace <==>
          && up.Some? && up.value != []
          && (|| |t.objects| + |Missing(t, up.value, 0)| > CAPACITY
              || (Usable(up.value) && path !in st.paths && |st.entries| == Store.CAPACITY)))
      && (r != NoSpace ==> (r.Handle? <==> up.Some? && Usable(up.value)))
      && (r.Handle? ==>
            && r.handle < |st'.entries| && st'.entries[r.handle].path == path
            && path in st'.paths && st'.paths[path] == r.handle
            && (|up.value| > 1 ==> Rooted(up.value) in t'.index)
            && forall p :: p in t'.index <==> p in t.index || p in Missing(t, up.value, 0))
      && (!r.Handle? ==> st' == st)
  {
    hide Inv, Store.Inv, Extends, StoreLaws.Extends, Walk, ParentPath, Store.Locate, Missing, EntryIn, Rooted;
    ExtendsSelf(t);
    StoreLaws.ExtendsSelf(st);
    if ParentPath(path).Some? {
      var up := ParentPath(path).value;
      if up == [] {
        WalkNowhere(t);
      } else {
        GetObjectResult(t, up);
        GetObjectRoomIff(t, up);
        EntryInIff(st, path);
        var (t', r) := GetObject(t, up);
        if r.Handle? && |up| > 1 {
          ObjectIndexed(t', r.handle);
        }
      }
    }
  }

  lemma ObjectIndexed(t: Tree, h: nat)
    requires Inv(t) && 0 < h < |t.objects|
    ensures t.objects[h].path in t.index
  {
  }

  lemma WalkNowhere(t: Tree)
    ensures Walk(t, [], 0, ROOT) == (t, OutOfRange)
  {
  }

  // ---------------------------------------------------------------- the imperative code

  class Instance {
    const objects: HandleTable<ObjectData>
    const storage: Storage.EntryStorage
    var objectPaths: map<Path, nat>

    ghost var tree: Tree

    ghost function Repr(): set<object> {
      {this, objects, objects.slots}
    }

    ghost predicate TableHolds(data: seq<ObjectData>)
      reads objects.slots
    {
      && |data| <= objects.slots.Length == CAPACITY
      && (forall h | 0 <= h < |data| :: objects.slots[h] == Taken(data[h]))
      && (forall h | |data| <= h < CAPACITY :: objects.slots[h] == Free)
    }

    ghost predicate Valid()
      reads Repr()
    {
      objects.Valid() && TableHolds(tree.objects) && Inv(tree) && objectPaths == tree.index
    }

    constructor ()
      ensures Valid() && StorageApart() && fresh(Repr() + storage.Repr())
      ensures tree == Empty && storage.state == Store.Fresh
    {
      objects := new HandleTable<ObjectData>(CAPACITY);
      storage := new Storage.EntryStorage();
      objectPaths := map[];
      tree := Empty;
      new;
      hide Inv, TableHolds, Storage.EntryStorage.Valid;
      assert TableHolds([]) by { NothingHeld(); }
      PlaceRoot();
      EmptyOk();
    }

    lemma NothingHeld()
      requires objects.slots.Length == CAPACITY && forall h | 0 <= h < CAPACITY :: objects.slots[h] == Free
      ensures TableHolds([])
    {
    }

    method PlaceRoot()
      requires objects.Valid() && TableHolds([])
      modifies objects, objects.slots
      ensures objects.Valid() && TableHolds(Empty.objects)
    {
      var _ := objects.AllocateNew(ObjectData([], []));
      assert objects.slots[0] != Free;
    }

    method GetOrCreateChild(parent: nat, name: Path) returns (r: Result)
      requires Valid() && NoSlash(name)
      modifies Repr()
      ensures Valid() && (tree, r) == Child(old(tree), parent, name)
    {
      if !objects.Has(parent) {
        return NoSuchHandle;
      }
      var path := ChildPath(objects.slots[parent].data.path, name);
      assert path == ChildPath(tree.objects[parent].path, name);
      ChildKeeps(tree, parent, name);
      hide Inv, ChildPath, TableHolds;
      if path in objectPaths {
        return Handle(objectPaths[path]);
      }
      r := AddObject(ObjectData(name, path), Child(tree, parent, name).0);
    }

    method AddObject(object': ObjectData, ghost after: Tree) returns (r: Result)
      requires Valid() && Inv(after)
      requires |tree.objects| == CAPACITY ==> after == tree
      requires |tree.objects| < CAPACITY ==>
                 after == Tree(tree.objects + [object'], tree.index[object'.path := |tree.objects|])
      modifies Repr()
      ensures Valid() && tree == after
      ensures r == if |old(tree).objects| == CAPACITY then NoSpace else Handle(|old(tree).objects|)
    {
      hide Inv;
      var slot := Allocate(object', tree.objects);
      if slot.Free? {
        return NoSpace;
      }
      objectPaths := objectPaths[object'.path := slot.data];
      tree := after;
      r := Handle(slot.data);
    }

    /** Objects are never released, so the table takes the slot after the last. */
    method Allocate(object': ObjectData, ghost before: seq<ObjectData>) returns (slot: Slot<nat>)
      requires objects.Valid() && TableHolds(before)
      modifies objects, objects.slots
      ensures objects.Valid()
      ensures slot == if |before| == CAPACITY then Free else Taken(|before|)
      ensures TableHolds(if |before| == CAPACITY then before else before + [object'])
    {
      assert |before| < CAPACITY ==> objects.slots[|before|].Free?;
      slot := objects.AllocateNew(object');
    }

    /** The walk. */
    method GetOrCreateObject(path: Path) returns (r: Result)
      requires Valid()
      modifies Repr()
      ensures Valid() && (tree, r) == Walk(old(tree), path, 0, ROOT)
    {
      hide Valid, Child;
      var pos: nat, current: nat := 0, ROOT;
      while true
        invariant Valid() && pos <= |path|
        invariant Walk(tree, path, pos, current) == Walk(old(tree), path, 0, ROOT)
        decreases |path| - pos
      {
        if pos + 1 > |path| {
          return OutOfRange;
        }
        var index := FindSlash(path, pos + 1);
        if index < |path| {
          var name := path[pos + 1..index];
          assert NoSlash(name);
          pos := index;
          r := GetOrCreateChild(current, name);
          if !r.Handle? {
            return;
          }
          current := r.handle;
        } else {
          var name := path[pos + 1..index];
          assert NoSlash(name);
          if name == [] {
            return if current == ROOT then Handle(ROOT) else InvalidPath;
          }
          r := GetOrCreateChild(current, name);
          return;
        }
      }
    }

    method FindObject(path: Path) returns (r: Result)
      requires Valid()
      modifies Repr()
      ensures Valid() && (tree, r) == GetObject(old(tree), path)
    {
      if path == [] {
        return Handle(ROOT);
      }
      r := GetOrCreateObject(path);
    }

    method GetChild(obj: nat, name: Path) returns (r: Result)
      requires Valid()
      modifies Repr()
      ensures Valid()
      ensures !ValidName(name) ==> r == InvalidName && tree == old(tree)
      ensures ValidName(name) ==> (tree, r) == Child(old(tree), obj, name)
    {
      if !ValidName(name) {
        return InvalidName;
      }
      r := GetOrCreateChild(obj, name);
    }

    method GetParentForObject(obj: nat) returns (r: Result)
      requires Valid()
      ensures r == GetParent(tree, obj)
    {
      if !objects.Has(obj) {
        return NoSuchHandle;
      }
      var up := ParentPath(objects.slots[obj].data.path);
      if up.None? {
        return NoParent;
      }
      if up.value == [] {
        return Handle(ROOT);
      }
      ParentExists(tree, obj);
      assert up.value in objectPaths;
      r := Handle(objectPaths[up.value]);
    }

    ghost predicate StorageApart()
      reads Repr(), storage, storage.entries, storage.entries.slots, storage.objects
    {
      storage.Valid() && Repr() !! storage.Repr()
    }

    /** An entry, and the objects on the way to it. */
    method GetEntry(path: Path) returns (r: Result)
      requires Valid() && StorageApart()
      modifies Repr(), storage.Repr()
      ensures Valid() && StorageApart() && fresh(storage.Repr() - old(storage.Repr()))
      ensures (tree, storage.state, r) == EntryOf(old(tree), old(storage.state), path)
    {
      hide Walk, Storage.EntryStorage.TableMatches;
      var up := ParentPath(path);
      if up.None? {
        return InvalidPath;
      }
      r := GetOrCreateObject(up.value);
      if r.Handle? {
        r := StoreEntry(path);
      }
    }

    method StoreEntry(path: Path) returns (r: Result)
      requires Valid() && StorageApart()
      modifies storage.Repr()
      ensures Valid() && StorageApart() && fresh(storage.Repr() - old(storage.Repr()))
      ensures (storage.state, r) == EntryIn(old(storage.state), path)
    {
      var h, status := storage.GetOrCreate(path);
      r := match status case Ok => Handle(h) case NoSpace => NoSpace case _ => NoSuchHandle;
    }

    /** An entry of an object: its path is put together without looking at the tree. */
    method GetEntryOf(obj: nat, name: Path) returns (r: Result)
      requires Valid() && StorageApart()
      modifies storage.Repr()
      ensures Valid() && StorageApart() && fresh(storage.Repr() - old(storage.Repr()))
      ensures !ValidName(name) ==> r == InvalidName && storage.state == old(storage.state)
      ensures ValidName(name) && obj >= |tree.objects| ==> r == NoSuchHandle && storage.state == old(storage.state)
      ensures ValidName(name) && obj < |tree.objects| ==>
                (storage.state, r) == EntryIn(old(storage.state), ChildPath(tree.objects[obj].path, name))
    {
      if !ValidName(name) {
        return InvalidName;
      }
      if !objects.Has(obj) {
        return NoSuchHandle;
      }
      r := StoreEntry(ChildPath(objects.slots[obj].data.path, name));
    }
  }
}

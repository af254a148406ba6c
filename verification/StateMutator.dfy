/** The mutator on shared memory: set copies the path in place of cloned nodes and never touches the state it was given. */
module StateMutator {
  import opened Options
  import opened StatePaths

  /** A value as held by a variable or a property: a scalar, or the address of an array or object. */
  datatype Ref = Scalar(scalar: Value) | At(address: nat)

  datatype Cell = ArrCell(items: seq<Ref>, own: map<Name, Ref>) | ObjCell(fields: map<Name, Ref>)

  type Memory = seq<Cell>

  ghost predicate Shows(m: Memory, r: Ref, v: Value)
    decreases v, 1
  {
    match r
    case Scalar(x) => v == x && !v.Container()
    case At(a) => a < |m| && CellShows(m, m[a], v)
  }

  ghost predicate CellShows(m: Memory, c: Cell, v: Value)
    decreases v, 0
  {
    match c
    case ArrCell(items, own) =>
      && v.Arr? && |items| == |v.items| && own.Keys == v.own.Keys
      && (forall i :: 0 <= i < |items| ==> Shows(m, items[i], v.items[i]))
      && (forall k <- own :: Shows(m, own[k], v.own[k]))
    case ObjCell(fields) => v.Obj? && fields.Keys == v.fields.Keys && forall k <- fields :: Shows(m, fields[k], v.fields[k])
  }

  /** What memory shows stays so while memory only grows. */
  lemma {:induction false} StillShows(m: Memory, later: Memory, r: Ref, v: Value)
    requires Shows(m, r, v) && m <= later
    ensures Shows(later, r, v)
    decreases v, 1
  {
    if r.At? {
      StillCellShows(m, later, m[r.address], v);
    }
  }

  lemma {:induction false} StillCellShows(m: Memory, later: Memory, c: Cell, v: Value)
    requires CellShows(m, c, v) && m <= later
    ensures CellShows(later, c, v)
    decreases v, 0
  {
    match c
    case ArrCell(items, own) =>
      forall i | 0 <= i < |items| ensures Shows(later, items[i], v.items[i]) {
        StillShows(m, later, items[i], v.items[i]);
      }
      forall k <- own ensures Shows(later, own[k], v.own[k]) {
        StillShows(m, later, own[k], v.own[k]);
      }
    case ObjCell(fields) =>
      forall k <- fields ensures Shows(later, fields[k], v.fields[k]) {
        StillShows(m, later, fields[k], v.fields[k]);
      }
  }

  // ---- Cells

  function GetRef(c: Cell, name: Name): Ref {
    match c
    case ObjCell(fields) => if name in fields then fields[name] else Scalar(Undefined)
    case ArrCell(items, own) =>
      if name.Index? && name.i < |items| then items[name.i]
      else if !name.Index? && name in own then own[name]
      else Scalar(Undefined)
  }

  /** Cloning an array leaves its own properties behind. */
  function CloneCell(c: Cell): Cell {
    if c.ArrCell? then ArrCell(c.items, map[]) else c
  }

  function LengthIn(r: Ref): Option<nat> {
    if r.Scalar? then LengthOf(r.scalar) else None
  }

  /** Only the length of an array does not take every value. */
  predicate TakesRef(c: Cell, name: Name, r: Ref) {
    c.ArrCell? && name == LENGTH ==> LengthIn(r).Some?
  }

  function ResizedRefs(items: seq<Ref>, n: nat): seq<Ref> {
    if n <= |items| then items[..n] else items + seq(n - |items|, _ => Scalar(Undefined))
  }

  function AssignRef(c: Cell, name: Name, r: Ref): Cell {
    match c
    case ObjCell(fields) => ObjCell(fields[name := r])
    case ArrCell(items, own) =>
      if name.Index? then
        ArrCell(if name.i < |items| then items[name.i := r] else ResizedRefs(items, name.i) + [r], own)
      else if name == LENGTH then
        if LengthIn(r).Some? then ArrCell(ResizedRefs(items, LengthIn(r).value), own) else c
      else ArrCell(items, own[name := r])
  }

  /** The node to copy; none for a scalar, which cannot be assigned into. */
  function OpenCell(m: Memory, r: Ref, following: Element): Option<Cell>
    requires r.At? ==> r.address < |m|
  {
    match r
    case At(a) => Some(CloneCell(m[a]))
    case Scalar(x) =>
      match Open(x, following)
      case Arr(_, _) => Some(ArrCell([], map[]))
      case Obj(_) => Some(ObjCell(map[]))
      case _ => None
  }

  lemma GetShows(m: Memory, c: Cell, v: Value, name: Name)
    requires CellShows(m, c, v)
    ensures Shows(m, GetRef(c, name), Get(v, name))
  {}

  lemma AssignShows(m: Memory, c: Cell, v: Value, name: Name, r: Ref, x: Value)
    requires CellShows(m, c, v) && Shows(m, r, x)
    ensures v.Container() && CellShows(m, AssignRef(c, name, r), Assign(v, name, x))
    ensures TakesRef(c, name, r) <==> Takes(v, name, x)
  {
    if c.ObjCell? || !(name.Index? || name == LENGTH) {
      AssignPropertyShows(m, c, v, name, r, x);
    } else if name == LENGTH {
      AssignLengthShows(m, c, v, r, x);
    } else {
      AssignItemShows(m, c, v, name.i, r, x);
    }
    hide Shows, CellShows, AssignRef, Assign, LengthOf;
  }

  lemma AssignPropertyShows(m: Memory, c: Cell, v: Value, name: Name, r: Ref, x: Value)
    requires CellShows(m, c, v) && Shows(m, r, x) && (c.ArrCell? ==> !name.Index? && name != LENGTH)
    ensures v.Container() && (c.ArrCell? <==> v.Arr?) && CellShows(m, AssignRef(c, name, r), Assign(v, name, x))
  {
    hide LengthOf;
  }

  lemma AssignLengthShows(m: Memory, c: Cell, v: Value, r: Ref, x: Value)
    requires CellShows(m, c, v) && Shows(m, r, x) && c.ArrCell?
    ensures v.Arr? && LengthIn(r) == LengthOf(x) && CellShows(m, AssignRef(c, LENGTH, r), Assign(v, LENGTH, x))
  {}

  lemma AssignItemShows(m: Memory, c: Cell, v: Value, i: nat, r: Ref, x: Value)
    requires CellShows(m, c, v) && Shows(m, r, x) && c.ArrCell?
    ensures v.Arr? && CellShows(m, AssignRef(c, Index(i), r), Assign(v, Index(i), x))
  {
    hide LengthOf;
  }

  lemma OpenShows(m: Memory, r: Ref, v: Value, following: Element)
    requires Shows(m, r, v)
    ensures r.At? ==> r.address < |m| && OpenCell(m, r, following) == Some(CloneCell(m[r.address]))
    ensures OpenCell(m, r, following).None? <==> !Open(v, following).Container()
    ensures OpenCell(m, r, following).Some? ==> CellShows(m, OpenCell(m, r, following).value, Open(v, following))
  {}

  // ---- A path copy

  /** Everything along the way down: the values opened, what they were opened from, the cells copied and where to. */
  datatype Trail = Trail(nodes: seq<Value>, from: seq<Ref>, cells: seq<Cell>, spine: seq<nat>)

  /** The first n nodes of the path are copied; all that was in base is untouched. */
  ghost predicate Descends(base: Memory, m: Memory, t: Trail, path: Path, n: nat) {
    && 1 <= n <= |path|
    && |t.nodes| == |t.from| == |t.cells| == |t.spine| == n
    && base <= m
    && (forall i :: 0 <= i < n ==> Cloned(base, t, i) && t.spine[i] < |m|)
    && (forall i, j :: 0 <= i < j < n ==> t.spine[i] < t.spine[j])
    && (forall i :: 0 <= i < n - 1 ==> Descended(t, path, i) && Linked(m, t, path, i))
  }

  /** A clone shows a node opened, and is a copy of the cell it was opened from. */
  ghost predicate Cloned(base: Memory, t: Trail, i: nat)
    requires i < |t.nodes| == |t.from| == |t.cells| == |t.spine|
  {
    && |base| <= t.spine[i]
    && CellShows(base, t.cells[i], t.nodes[i])
    && (t.from[i].At? ==> t.from[i].address < |base| && t.cells[i] == CloneCell(base[t.from[i].address]))
  }

  /** A clone points to the next. */
  ghost predicate Linked(m: Memory, t: Trail, path: Path, i: nat)
    requires i + 1 < |t.nodes| == |t.from| == |t.cells| == |t.spine| <= |path| && t.spine[i] < |m|
  {
    m[t.spine[i]] == AssignRef(t.cells[i], Slot(t.nodes[i], path[i]), At(t.spine[i + 1]))
  }

  predicate ToLength(node: Value, e: Element) {
    node.Arr? && e == Key(LENGTH)
  }

  ghost predicate Descended(t: Trail, path: Path, i: nat)
    requires i + 1 < |t.nodes| == |t.from| == |t.cells| == |t.spine| <= |path|
  {
    && (path[i].Template? ==> t.nodes[i].Arr?) && !ToLength(t.nodes[i], path[i])
    && t.nodes[i + 1] == Next(t.nodes[i], path[i], path[i + 1])
    && t.from[i + 1] == GetRef(t.cells[i], Slot(t.nodes[i], path[i]))
  }

  /** A name that the write below the node leaves alone: any other, but no item that a new length cuts off or adds. */
  predicate Beside(node: Value, e: Element, after: Cell, name: Name) {
    if ToLength(node, e) then after.ArrCell? && name.Index? && name.i < |after.items| && name.i < |node.items|
    else name != Slot(node, e)
  }

  /** The copy points to the very same children as the original, except along the path, where they are copied in turn. */
  ghost predicate SharesAside(m: Memory, before: Ref, after: Ref, node: Value, path: Path)
    requires path != []
    decreases |path|
  {
    before.At? ==>
      && after.At? && before.address < |m| && after.address < |m| && before != after
      && (forall name :: Beside(node, path[0], m[after.address], name) ==>
            GetRef(m[after.address], name) == GetRef(CloneCell(m[before.address]), name))
      && (1 < |path| ==>
            SharesAside(m, GetRef(CloneCell(m[before.address]), Slot(node, path[0])), GetRef(m[after.address], Slot(node, path[0])),
                        Next(node, path[0], path[1]), path[1..]))
  }

  /** The node at the end of the path takes the value. */
  ghost predicate LastTakes(t: Trail, path: Path, value: Value)
    requires |t.nodes| == |path| && path != []
  {
    Takes(t.nodes[|path| - 1], Slot(t.nodes[|path| - 1], path[|path| - 1]), value)
  }

  /** The trail is complete and the value is in place. */
  ghost predicate Finished(base: Memory, m: Memory, t: Trail, path: Path, stored: Ref, value: Value) {
    && path != [] && Descends(base, m, t, path, |path|)
    && Shows(base, stored, value) && LastTakes(t, path, value)
    && m[t.spine[|path| - 1]] == AssignRef(t.cells[|path| - 1], Slot(t.nodes[|path| - 1], path[|path| - 1]), stored)
  }

  /** From the last copy up, what the copies show is what writing into the nodes gives. */
  lemma {:induction false} CopyShows(base: Memory, m: Memory, t: Trail, path: Path, stored: Ref, value: Value, i: nat)
    requires Finished(base, m, t, path, stored, value) && i < |path|
    ensures Put(t.nodes[i], path[i..], value).Ok?
    ensures Shows(m, At(t.spine[i]), Put(t.nodes[i], path[i..], value).value)
    decreases |path| - i
  {
    hide AssignRef, Assign, Slot, Next;
    var slot := Slot(t.nodes[i], path[i]);
    assert Cloned(base, t, i);
    StillCellShows(base, m, t.cells[i], t.nodes[i]);
    if i == |path| - 1 {
      StillShows(base, m, stored, value);
      AssignShows(m, t.cells[i], t.nodes[i], slot, stored, value);
    } else {
      CopyShows(base, m, t, path, stored, value, i + 1);
      assert Descended(t, path, i) && Linked(m, t, path, i);
      assert path[i..][1..] == path[i + 1..];
      NotLength(t.nodes[i], path[i], Put(t.nodes[i + 1], path[i + 1..], value).value);
      AssignShows(m, t.cells[i], t.nodes[i], slot, At(t.spine[i + 1]), Put(t.nodes[i + 1], path[i + 1..], value).value);
    }
  }

  lemma AssignedOthers(node: Value, e: Element, c: Cell, r: Ref, other: Name)
    requires (c.ArrCell? <==> node.Arr?) && (c.ArrCell? ==> |c.items| == |node.items|)
    requires Beside(node, e, AssignRef(c, Slot(node, e), r), other)
    ensures GetRef(AssignRef(c, Slot(node, e), r), other) == GetRef(c, other)
  {}

  lemma CellKind(m: Memory, c: Cell, v: Value)
    requires CellShows(m, c, v)
    ensures (c.ArrCell? <==> v.Arr?) && (c.ArrCell? ==> |c.items| == |v.items|)
  {}

  lemma AssignedGet(c: Cell, name: Name, r: Ref)
    requires c.ArrCell? ==> name != LENGTH
    ensures GetRef(AssignRef(c, name, r), name) == r
  {}

  lemma NotLength(node: Value, e: Element, x: Value)
    requires !ToLength(node, e)
    ensures Takes(node, Slot(node, e), x) && (node.Arr? ==> Slot(node, e) != LENGTH)
  {}

  lemma {:induction false} CopyShares(base: Memory, m: Memory, t: Trail, path: Path, stored: Ref, value: Value, i: nat)
    requires Finished(base, m, t, path, stored, value) && i < |path|
    ensures SharesAside(m, t.from[i], At(t.spine[i]), t.nodes[i], path[i..])
    decreases |path| - i
  {
    hide AssignRef, Slot, Next, Shows, CellShows, Beside;
    var slot := Slot(t.nodes[i], path[i]);
    assert Cloned(base, t, i) && (i < |path| - 1 ==> Linked(m, t, path, i) && Descended(t, path, i));
    var child := if i == |path| - 1 then stored else At(t.spine[i + 1]);
    CellKind(base, t.cells[i], t.nodes[i]);
    forall name | Beside(t.nodes[i], path[i], m[t.spine[i]], name) ensures GetRef(m[t.spine[i]], name) == GetRef(t.cells[i], name) {
      AssignedOthers(t.nodes[i], path[i], t.cells[i], child, name);
    }
    if i < |path| - 1 {
      CopyShares(base, m, t, path, stored, value, i + 1);
      assert Descended(t, path, i);
      assert path[i..][1..] == path[i + 1..];
      NotLength(t.nodes[i], path[i], Undefined);
      AssignedGet(t.cells[i], slot, child);
    }
  }

  lemma AtShows(m: Memory, a: nat, v: Value)
    requires a < |m| && CellShows(m, m[a], v)
    ensures Shows(m, At(a), v)
  {}

  lemma ScalarThrows(node: Value, path: Path, value: Value)
    requires path != [] && !node.Container()
    ensures Put(node, path, value) == Throws
  {}

  lemma EndStores(t: Trail, path: Path, value: Value, j: nat)
    requires |t.nodes| == |path| == j + 1 && t.nodes[j].Container()
    ensures Put(t.nodes[j], path[j..], value).Ok? <==> LastTakes(t, path, value)
  {
    assert path[j..] == [path[j]];
  }

  lemma PutUnfolds(node: Value, path: Path, value: Value)
    requires 2 <= |path| && node.Container()
    ensures (path[0].Template? && node.Obj?) || ToLength(node, path[0]) ==> Put(node, path, value) == Throws
    ensures !(path[0].Template? && node.Obj?) && !ToLength(node, path[0]) ==>
              (Put(node, path, value).Ok? <==> Put(Next(node, path[0], path[1]), path[1..], value).Ok?)
  {
    if Put(Next(node, path[0], path[1]), path[1..], value).Ok? {
      PutIsContainer(Next(node, path[0], path[1]), path[1..], value);
    }
  }

  lemma TemplatesStillShow(m: Memory, later: Memory, path: Path, templates: seq<Ref>)
    requires m <= later && |templates| == |path|
    requires forall i :: 0 <= i < |path| && path[i].Template? ==> Shows(m, templates[i], Obj(path[i].fields))
    ensures forall i :: 0 <= i < |path| && path[i].Template? ==> Shows(later, templates[i], Obj(path[i].fields))
  {
    forall i | 0 <= i < |path| && path[i].Template? ensures Shows(later, templates[i], Obj(path[i].fields)) {
      StillShows(m, later, templates[i], Obj(path[i].fields));
    }
  }

  lemma FirstCopy(base: Memory, m: Memory, t: Trail, path: Path)
    requires path != [] && |t.nodes| == |t.from| == |t.cells| == |t.spine| == 1
    requires m == base + t.cells && t.spine[0] == |base| && CellShows(base, t.cells[0], t.nodes[0])
    requires t.from[0].At? ==> t.from[0].address < |base| && t.cells[0] == CloneCell(base[t.from[0].address])
    ensures Descends(base, m, t, path, 1)
  {}

  lemma NewestClone(base: Memory, m: Memory, later: Memory, t: Trail, further: Trail, path: Path, n: nat, cell: Cell, node: Value)
    requires Descends(base, m, t, path, n) && n < |path|
    requires further == Extended(t, path, n, cell, node, |m|)
    requires later == (m + [cell])[t.spine[n - 1] := AssignRef(t.cells[n - 1], Slot(t.nodes[n - 1], path[n - 1]), At(|m|))]
    requires node == Next(t.nodes[n - 1], path[n - 1], path[n]) && (path[n - 1].Template? ==> t.nodes[n - 1].Arr?)
    requires !ToLength(t.nodes[n - 1], path[n - 1])
    requires CellShows(base, cell, node)
    requires var child := GetRef(t.cells[n - 1], Slot(t.nodes[n - 1], path[n - 1]));
      child.At? ==> child.address < |base| && cell == CloneCell(base[child.address])
    ensures base <= later && |m| < |later| && later[|m|] == cell
    ensures Cloned(base, further, n) && Descended(further, path, n - 1)
    ensures further.spine[n - 1] < |later| && Linked(later, further, path, n - 1)
  {
    hide Put, Next, Open, Slot, AssignRef, Shows, CellShows;
    assert Cloned(base, t, n - 1);
  }

  lemma OlderClones(base: Memory, m: Memory, later: Memory, t: Trail, further: Trail, path: Path, n: nat, cell: Cell, node: Value)
    requires Descends(base, m, t, path, n) && n < |path|
    requires further == Extended(t, path, n, cell, node, |m|)
    requires later == (m + [cell])[t.spine[n - 1] := AssignRef(t.cells[n - 1], Slot(t.nodes[n - 1], path[n - 1]), At(|m|))]
    ensures forall i :: 0 <= i < n ==> Cloned(base, further, i) && further.spine[i] < |later|
    ensures forall i :: 0 <= i < n - 1 ==> Descended(further, path, i) && Linked(later, further, path, i)
  {
    hide Put, Next, Open, Slot, AssignRef, Shows, CellShows;
    forall i | 0 <= i < n ensures Cloned(base, further, i) && further.spine[i] < |later| {
      assert Cloned(base, t, i);
    }
    forall i | 0 <= i < n - 1 ensures Descended(further, path, i) && Linked(later, further, path, i) {
      assert Descended(t, path, i) && Linked(m, t, path, i) && t.spine[i] < t.spine[n - 1];
      StillLinked(m, later, t, further, path, i);
    }
  }

  /** Adding one copy and linking it to the one before. */
  lemma NextCopy(base: Memory, m: Memory, later: Memory, t: Trail, further: Trail, path: Path, n: nat, cell: Cell, node: Value)
    requires Descends(base, m, t, path, n) && n < |path|
    requires further == Extended(t, path, n, cell, node, |m|)
    requires later == (m + [cell])[t.spine[n - 1] := AssignRef(t.cells[n - 1], Slot(t.nodes[n - 1], path[n - 1]), At(|m|))]
    requires node == Next(t.nodes[n - 1], path[n - 1], path[n]) && (path[n - 1].Template? ==> t.nodes[n - 1].Arr?)
    requires !ToLength(t.nodes[n - 1], path[n - 1])
    requires CellShows(base, cell, node)
    requires var child := GetRef(t.cells[n - 1], Slot(t.nodes[n - 1], path[n - 1]));
      child.At? ==> child.address < |base| && cell == CloneCell(base[child.address])
    ensures Descends(base, later, further, path, n + 1)
    ensures further.spine[n] < |later| && later[further.spine[n]] == cell
  {
    hide Put, Next, Open, Slot, AssignRef, Shows, CellShows, Cloned, Descended, Linked;
    NewestClone(base, m, later, t, further, path, n, cell, node);
    OlderClones(base, m, later, t, further, path, n, cell, node);
  }

  lemma StillLinked(m: Memory, later: Memory, t: Trail, further: Trail, path: Path, i: nat)
    requires i + 1 < |t.nodes| == |t.from| == |t.cells| == |t.spine| <= |path|
    requires |t.nodes| < |further.nodes| == |further.from| == |further.cells| == |further.spine| <= |path|
    requires further.nodes[..|t.nodes|] == t.nodes && further.cells[..|t.nodes|] == t.cells
    requires further.spine[..|t.nodes|] == t.spine
    requires t.spine[i] < |m| <= |later| && later[t.spine[i]] == m[t.spine[i]] && Linked(m, t, path, i)
    ensures further.spine[i] < |later| && Linked(later, further, path, i)
  {
    hide Slot, AssignRef;
    assert further.nodes[i] == t.nodes[i] && further.cells[i] == t.cells[i];
    assert further.spine[i] == t.spine[i] && further.spine[i + 1] == t.spine[i + 1];
  }

  function Extended(t: Trail, path: Path, n: nat, cell: Cell, node: Value, address: nat): Trail
    requires 1 <= n == |t.nodes| == |t.from| == |t.cells| == |t.spine| <= |path|
  {
    Trail(t.nodes + [node], t.from + [GetRef(t.cells[n - 1], Slot(t.nodes[n - 1], path[n - 1]))], t.cells + [cell], t.spine + [address])
  }

  lemma LastCopy(base: Memory, m: Memory, later: Memory, t: Trail, path: Path, stored: Ref, value: Value)
    requires path != [] && Descends(base, m, t, path, |path|) && Shows(base, stored, value)
    requires LastTakes(t, path, value)
    requires later == m[t.spine[|path| - 1] := AssignRef(t.cells[|path| - 1], Slot(t.nodes[|path| - 1], path[|path| - 1]), stored)]
    ensures Finished(base, later, t, path, stored, value)
  {
    hide Put, Next, Open, Slot, AssignRef, Shows, CellShows;
    var last := |path| - 1;
    assert Cloned(base, t, last);
    forall i | 0 <= i < last ensures Descended(t, path, i) && Linked(later, t, path, i) {
      assert Descended(t, path, i) && Linked(m, t, path, i) && t.spine[i] < t.spine[last];
    }
  }

  /** What the last clone is known to be. */
  lemma LastClone(base: Memory, m: Memory, t: Trail, path: Path, n: nat)
    requires Descends(base, m, t, path, n)
    ensures 1 <= n <= |path| && |t.nodes| == |t.from| == |t.cells| == |t.spine| == n && base <= m
    ensures |base| <= t.spine[n - 1] < |m| && CellShows(base, t.cells[n - 1], t.nodes[n - 1])
    ensures CellShows(m, t.cells[n - 1], t.nodes[n - 1])
    ensures t.nodes[n - 1].Container() && (t.cells[n - 1].ArrCell? <==> t.nodes[n - 1].Arr?)
  {
    assert Cloned(base, t, n - 1);
    StillCellShows(base, m, t.cells[n - 1], t.nodes[n - 1]);
  }

  class Mutator {
    var memory: Memory

    /** Copies a value into memory. */
    method CloneDeep(v: Value) returns (copy: Ref)
      modifies this
      ensures old(memory) <= memory && Shows(memory, copy, v)
      decreases v, 1
    {
      match v
      case Arr(values, _) =>
        var items: seq<Ref> := [];
        for i := 0 to |values|
          invariant old(memory) <= memory && |items| == i
          invariant forall j :: 0 <= j < i ==> Shows(memory, items[j], values[j])
        {
          ghost var before := memory;
          var item := CloneDeep(values[i]);
          forall j | 0 <= j < i ensures Shows(memory, items[j], values[j]) {
            StillShows(before, memory, items[j], values[j]);
          }
          items := items + [item];
        }
        ghost var before := memory;
        var own := CloneFields(v.own, v);
        forall j | 0 <= j < |items| ensures Shows(memory, items[j], values[j]) {
          StillShows(before, memory, items[j], values[j]);
        }
        copy := Allocate(ArrCell(items, own), v);
      case Obj(values) =>
        var fields := CloneFields(values, v);
        copy := Allocate(ObjCell(fields), v);
      case _ =>
        copy := Scalar(v);
    }

    /** Copies the properties of a value. */
    method CloneFields(values: map<Name, Value>, ghost v: Value) returns (fields: map<Name, Ref>)
      requires (v.Obj? && values == v.fields) || (v.Arr? && values == v.own)
      modifies this
      ensures old(memory) <= memory && fields.Keys == values.Keys
      ensures forall k <- fields :: Shows(memory, fields[k], values[k])
      decreases v, 0
    {
      var left := values.Keys;
      fields := map[];
      while left != {}
        invariant old(memory) <= memory && left <= values.Keys && fields.Keys == values.Keys - left
        invariant forall k <- fields :: Shows(memory, fields[k], values[k])
      {
        ghost var before := memory;
        var name :| name in left;
        var field := CloneDeep(values[name]);
        forall k <- fields ensures Shows(memory, fields[k], values[k]) {
          StillShows(before, memory, fields[k], values[k]);
        }
        fields, left := fields[name := field], left - {name};
      }
    }

    method Allocate(c: Cell, ghost v: Value) returns (r: Ref)
      requires CellShows(memory, c, v)
      modifies this
      ensures memory == old(memory) + [c] && r == At(|old(memory)|) && Shows(memory, r, v)
    {
      memory := memory + [c];
      StillCellShows(old(memory), memory, c, v);
      r := At(|memory| - 1);
    }

    /** Reads the tree at a reference. */
    method Load(r: Ref, ghost v: Value) returns (x: Value)
      requires Shows(memory, r, v)
      ensures x == v
      decreases v, 1
    {
      match r
      case Scalar(scalar) => x := scalar;
      case At(a) =>
        match memory[a]
        case ArrCell(items, own) =>
          var values: seq<Value> := [];
          for i := 0 to |items|
            invariant values == v.items[..i]
          {
            var item := Load(items[i], v.items[i]);
            values := values + [item];
          }
          var properties := LoadFields(own, v.own, v);
          x := Arr(values, properties);
        case ObjCell(fields) =>
          var values := LoadFields(fields, v.fields, v);
          x := Obj(values);
    }

    method LoadFields(fields: map<Name, Ref>, ghost shown: map<Name, Value>, ghost v: Value) returns (values: map<Name, Value>)
      requires (v.Obj? && shown == v.fields) || (v.Arr? && shown == v.own)
      requires fields.Keys == shown.Keys && forall k <- fields :: Shows(memory, fields[k], shown[k])
      ensures values == shown
      decreases v, 0
    {
      var left := fields.Keys;
      values := map[];
      while left != {}
        invariant left <= fields.Keys && values.Keys == fields.Keys - left
        invariant forall k <- values :: values[k] == shown[k]
      {
        var name :| name in left;
        var field := Load(fields[name], shown[name]);
        values, left := values[name := field], left - {name};
      }
    }

    /** The templates of a path, as the objects its caller built. */
    method Templates(path: Path) returns (templates: seq<Ref>)
      modifies this
      ensures old(memory) <= memory && |templates| == |path|
      ensures forall i :: 0 <= i < |path| && path[i].Template? ==>
                templates[i].At? && Shows(memory, templates[i], Obj(path[i].fields))
    {
      templates := [];
      for i := 0 to |path|
        invariant old(memory) <= memory && |templates| == i
        invariant forall j :: 0 <= j < i && path[j].Template? ==>
                    templates[j].At? && Shows(memory, templates[j], Obj(path[j].fields))
      {
        ghost var before := memory;
        var template := Scalar(Undefined);
        if path[i].Template? {
          template := CloneDeep(Obj(path[i].fields));
        }
        forall j | 0 <= j < i && path[j].Template? ensures Shows(memory, templates[j], Obj(path[j].fields)) {
          StillShows(before, memory, templates[j], Obj(path[j].fields));
        }
        templates := templates + [template];
      }
    }

    /**
     * Sets the value at the path, cloning each node on the way and assigning into the clones. The result is the tree
     * that Set describes; what the given root shows, and every cell there was, stays as it was; and off the path the
     * new state points to the very cells of the old one.
     */
    method Set(root: Ref, path: Path, value: Value, ghost state: Value) returns (result: Option<Ref>)
      requires Shows(memory, root, state)
      modifies this
      ensures old(memory) <= memory
      ensures Shows(memory, root, state)
      ensures result.Some? <==> StatePaths.Set(state, path, value).Ok?
      ensures result.Some? ==> Shows(memory, result.value, StatePaths.Set(state, path, value).value)
      ensures result.Some? ==> SharesAside(memory, root, result.value, Open(state, path[0]), path)
    {
      hide Put, Next, Open, Slot, Assign, AssignRef, OpenCell, SharesAside, Shows, CellShows, Descends, Finished, Takes;
      if path == [] {
        return None;
      }
      var templates := Templates(path);
      ghost var before := memory;
      var stored := CloneDeep(value);
      ghost var base := memory;
      StillShows(old(memory), base, root, state);
      TemplatesStillShow(before, base, path, templates);
      var spine;
      ghost var t;
      spine, t := Traverse(root, path, templates, state, value);
      StillShows(base, memory, root, state);
      if spine == None {
        return None;
      }
      var last := |path| - 1;
      LastClone(base, memory, t, path, last + 1);
      AtShows(memory, spine.value[last], t.nodes[last]);
      var node := Load(At(spine.value[last]), t.nodes[last]);
      if !Takes(node, Slot(node, path[last]), value) {
        return None;
      }
      ghost var m := memory;
      memory := memory[spine.value[last] := AssignRef(memory[spine.value[last]], Slot(node, path[last]), stored)];
      LastCopy(base, m, memory, t, path, stored, value);
      CopyShows(base, memory, t, path, stored, value, 0);
      CopyShares(base, memory, t, path, stored, value, 0);
      assert path[0..] == path;
      StillShows(base, memory, root, state);
      result := Some(At(spine.value[0]));
    }

    /** Clones the nodes from the root to the one that holds the last element; none if a scalar or an object is in the way. */
    method Traverse(root: Ref, path: Path, templates: seq<Ref>, ghost state: Value, ghost value: Value)
      returns (spine: Option<seq<nat>>, ghost t: Trail)
      requires path != [] && |templates| == |path| && Shows(memory, root, state)
      requires forall i :: 0 <= i < |path| && path[i].Template? ==>
                 templates[i].At? && Shows(memory, templates[i], Obj(path[i].fields))
      modifies this
      ensures old(memory) <= memory
      ensures spine.None? ==> StatePaths.Set(state, path, value) == Throws
      ensures spine.Some? ==>
        && Descends(old(memory), memory, t, path, |path|) && spine.value == t.spine && |t.spine| == |t.nodes| == |t.from| == |path|
        && |t.cells| == |path| && |old(memory)| <= t.spine[|path| - 1] < |memory|
        && memory[t.spine[|path| - 1]] == t.cells[|path| - 1]
        && t.nodes[0] == Open(state, path[0]) && t.from[0] == root
        && (StatePaths.Set(state, path, value).Ok? <==> LastTakes(t, path, value))
    {
      hide Put, Next, Open, Slot, Assign, AssignRef, OpenCell, Shows, CellShows, Descends, LastTakes, CloneCell;
      ghost var base := memory;
      var first;
      first, t := FirstClone(root, path, state);
      if first == None {
        ScalarThrows(Open(state, path[0]), path, value);
        return None, t;
      }
      var at := [first.value];
      assert path[0..] == path;
      var j := 0;
      while j < |path| - 1
        invariant 0 <= j < |path| && |t.nodes| == |t.from| == |t.cells| == |at| == j + 1 && t.spine == at
        invariant base <= memory && at[j] < |memory| && memory[at[j]] == t.cells[j]
        invariant Descends(base, memory, t, path, j + 1)
        invariant t.nodes[0] == Open(state, path[0]) && t.from[0] == root
        invariant StatePaths.Set(state, path, value).Ok? <==> Put(t.nodes[j], path[j..], value).Ok?
      {
        var address;
        address, t := Step(at[j], path, j, templates[j], base, t, value);
        if address == None {
          return None, t;
        }
        at, j := at + [address.value], j + 1;
      }
      LastClone(base, memory, t, path, |path|);
      EndStores(t, path, value, j);
      spine := Some(at);
    }

    /** Clones the root; none if it is a scalar that no container replaces. */
    method FirstClone(root: Ref, path: Path, ghost state: Value) returns (address: Option<nat>, ghost t: Trail)
      requires path != [] && Shows(memory, root, state)
      modifies this
      ensures old(memory) <= memory
      ensures address.None? ==> !Open(state, path[0]).Container()
      ensures address.Some? ==>
        && Descends(old(memory), memory, t, path, 1) && t.spine == [address.value]
        && t.nodes == [Open(state, path[0])] && t.from == [root] && |t.cells| == 1
        && address.value < |memory| && memory[address.value] == t.cells[0]
    {
      hide Open, OpenCell, Shows, CellShows, Descends, CloneCell;
      ghost var base := memory;
      t := Trail([], [], [], []);
      OpenShows(base, root, state, path[0]);
      var first := OpenCell(memory, root, path[0]);
      if first == None {
        return None, t;
      }
      memory := memory + [first.value];
      t := Trail([Open(state, path[0])], [root], [first.value], [|base|]);
      FirstCopy(base, memory, t, path);
      address := Some(|memory| - 1);
    }

    /** Clones the next node of the path; none where the source fails to assign. */
    method Step(at: nat, path: Path, j: nat, template: Ref, ghost base: Memory, ghost t: Trail, ghost value: Value)
      returns (address: Option<nat>, ghost further: Trail)
      requires Descends(base, memory, t, path, j + 1) && j + 1 < |path|
      requires at == t.spine[j] && memory[at] == t.cells[j]
      requires path[j].Template? ==> template.At? && Shows(base, template, Obj(path[j].fields))
      modifies this
      ensures base <= memory
      ensures address.None? ==> Put(t.nodes[j], path[j..], value) == Throws
      ensures address.Some? ==>
        && Descends(base, memory, further, path, j + 2)
        && address.value < |memory| && memory[address.value] == further.cells[j + 1]
        && further.spine == t.spine + [address.value]
        && |further.nodes| == |further.from| == |further.cells| == j + 2
        && further.nodes[0] == t.nodes[0] && further.from[0] == t.from[0]
        && (Put(t.nodes[j], path[j..], value).Ok? <==> Put(further.nodes[j + 1], path[j + 1..], value).Ok?)
    {
      LastClone(base, memory, t, path, j + 1);
      hide Put, Next, Open, Slot, Assign, AssignRef, Shows, CellShows, Descends;
      further := t;
      AtShows(memory, at, t.nodes[j]);
      var node := Load(At(at), t.nodes[j]);
      PutUnfolds(node, path[j..], value);
      assert path[j..][0] == path[j] && path[j..][1] == path[j + 1] && path[j..][1..] == path[j + 1..];
      if (path[j].Template? && memory[at].ObjCell?) || ToLength(node, path[j]) {
        return None, t;
      }
      var slot := Slot(node, path[j]);
      var next := NextCell(at, node, path[j], path[j + 1], slot, template, base);
      if next == None {
        ScalarThrows(Next(node, path[j], path[j + 1]), path[j + 1..], value);
        return None, t;
      }
      var linked;
      linked, further := Link(at, slot, next.value, base, t, path, j + 1, Next(node, path[j], path[j + 1]));
      address := Some(linked);
    }

    /** Puts a clone into memory and has the one before point to it. */
    method Link(at: nat, slot: Name, next: Cell, ghost base: Memory, ghost t: Trail, ghost path: Path, ghost n: nat, ghost node: Value)
      returns (address: nat, ghost further: Trail)
      requires Descends(base, memory, t, path, n) && n < |path|
      requires node == Next(t.nodes[n - 1], path[n - 1], path[n]) && (path[n - 1].Template? ==> t.nodes[n - 1].Arr?)
    requires !ToLength(t.nodes[n - 1], path[n - 1])
      requires CellShows(base, next, node)
      requires at == t.spine[n - 1] && memory[at] == t.cells[n - 1] && slot == Slot(t.nodes[n - 1], path[n - 1])
      requires var child := GetRef(memory[at], slot);
        child.At? ==> child.address < |base| && next == CloneCell(base[child.address])
      modifies this
      ensures base <= memory && address < |memory| && memory[address] == next
      ensures further == Extended(t, path, n, next, node, address)
      ensures Descends(base, memory, further, path, n + 1)
    {
      hide Put, Next, Open, Slot, Assign, AssignRef, CellShows;
      ghost var m := memory;
      address := |memory|;
      memory := memory + [next];
      memory := memory[at := AssignRef(memory[at], slot, At(address))];
      further := Extended(t, path, n, next, node, address);
      NextCopy(base, m, memory, t, further, path, n, next, node);
    }

    /** The node to clone next: the template itself where nothing matches it, else what the slot holds. */
    method NextCell(at: nat, node: Value, e: Element, following: Element, slot: Name, template: Ref, ghost base: Memory)
      returns (next: Option<Cell>)
      requires base <= memory && at < |memory| && CellShows(base, memory[at], node)
      requires slot == Slot(node, e) && (e.Template? ==> node.Arr?)
      requires e.Template? ==> template.At? && Shows(base, template, Obj(e.fields))
      ensures next.None? <==> !Next(node, e, following).Container()
      ensures next.Some? ==> CellShows(base, next.value, Next(node, e, following))
      ensures next.Some? && GetRef(memory[at], slot).At? ==>
                GetRef(memory[at], slot).address < |base| && next.value == CloneCell(base[GetRef(memory[at], slot).address])
    {
      GetShows(base, memory[at], node, slot);
      var child := GetRef(memory[at], slot);
      if e.Template? && Find(node.items, e.fields) == |node.items| {
        next := Some(memory[template.address]);
      } else {
        OpenShows(base, child, Get(node, slot), following);
        next := OpenCell(memory, child, following);
        assert child.At? ==> memory[child.address] == base[child.address];
      }
    }

    /**
     * Sets only what differs: the state itself is the answer where the path, its names split at their dots, already reads
     * the value.
     */
    method SetIfChanged(root: Ref, path: Path, value: Value, ghost state: Value) returns (result: Option<Ref>)
      requires Shows(memory, root, state)
      modifies this
      ensures old(memory) <= memory
      ensures Resolve(state, Split(path)).Ok? && Same(Resolve(state, Split(path)).value, value) ==>
                result == Some(root) && memory == old(memory)
      ensures result.Some? <==> StatePaths.SetIfChanged(state, path, value).Ok?
      ensures result.Some? ==> Shows(memory, result.value, StatePaths.SetIfChanged(state, path, value).value)
    {
      var before := Load(root, state);
      var found := Resolve(before, Split(path));
      if found == Throws {
        return None;
      }
      if Same(found.value, value) {
        return Some(root);
      }
      result := Set(root, path, value, state);
    }
  }
}
